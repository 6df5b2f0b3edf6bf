# eReserve downloader: a Dafny model of its decision logic

`ereserve_downloader.py` drives a browser through the Tsinghua eReserves
site. It finds the `scanid` of the viewer the "read" button opens. It then
calls the chapter-list API and the per-chapter API, downloads each page
image, and assembles a PDF whose table of contents (TOC) points at the first
page of each chapter. This project models the parts of that program that
decide things:

- `Urls`: `_origin_for_url` and `_last_path_segment` over an already split URL.
- `SessionBridge`: `_get_cookie_value`, with its exact pass and its
  case-insensitive pass. Also the headers, the error excerpt ("snippet") and
  the status and JSON rules of `_post_form_json`.
- `ScanIdProbe`: `_extract_scanid_now`, a search over frames × selectors ×
  value readers. The browser is a `Snapshot` value: the frames of each page,
  each selector's match count (or a raise), each reader's answer (or a raise),
  and each page's URL.
- `ScanIdDiscovery`:
  - `_new_pages_since`;
  - the candidate list of line 224;
  - `_wait_for_scanid`, including its timeout message;
  - the watch loop of `main` (lines 213-241).

  Time is a finite sequence of poll rounds, one `Snapshot` per round, up to
  the deadline. The watch loop and the wait loop share that sequence. When
  the watch sees new tabs in round `i`, the wait starts at that same round
  `i`, so its first poll sees the snapshot in which the new tabs appeared.
  When the watch runs out of rounds, the wait starts with none left.
- `ChapterWalk`:
  - the viewer book id check (lines 243-245);
  - the `data` check on the chapter list (lines 254-256);
  - the chapter / TOC / `page_index` loop (lines 264-317).

  The server is a value: for each chapter id it gives the cookie jar and the
  reply of the manifest request, and for each storage key it says whether
  the download and image open succeed.
- `Json`: JSON values with Python truthiness and `str()`.
- `Text`: the Python string operations these steps use (`strip`, `rstrip`,
  `rsplit`, `replace`, slicing, `lower`, and `<` on strings).
- `Outcomes`: `Option`, `Result`, and one `Error` constructor for each way
  the modelled code can stop:
  - the `SystemExit` messages it raises;
  - the exceptions it lets escape: `chapters.get` on a body that is not an
    object (`ChaptersNotObject`), and a page URL read that raises
    (`UrlUnreadable`);
  - a failed `raise_for_status` or image open (`DownloadFailed`).

Loops that the source writes as loops are Dafny methods with loop
invariants:
- `GetCookieValue`;
- `ExtractScanIdNow`;
- `WaitForScanId`;
- `DiscoverScanId`;
- `WalkChapters` and `PlaceImages`.

Each of these methods is proved equal to a recursive reference function. The
properties are then proved about that function.

`SeenUrls` is different: line 181 is a set comprehension passed to
`sorted`, not a loop. Its method states the result directly: the URLs come
out strictly sorted, and they are exactly the distinct non-empty recorded
URLs. `SortedUnique` shows that this pins the list down.

Three behaviours of the code are easy to misread:
- The TOC entry `[1, name, page_index + 1]` is appended (line 280) for every
  chapter item whose chapter API call succeeds. This happens before the
  manifest is checked, so a chapter with a missing or malformed `JGPS` still
  gets an entry, pointing at the next page to be placed (`WalkFromTitles`).
- The `"ERROR: scanid not found"` exit at line 241 cannot be reached. The
  watch loop either settles with a scan id (line 232) or leaves
  `candidate_pages` non-empty. So the model has no path to it.
- When no new tab opens and the original page never shows an id, the watch
  loop uses up the whole deadline. The wait then gets no time, and the
  timeout message lists no URL at all, although the original page was polled
  (`QuietTimeout`).

## Model

| member | source | states |
|---|---|---|
| Urls.OriginForUrl | ereserve_downloader.py:55-59 | with a scheme and a host the origin is `scheme://host`; otherwise it is the site's default origin |
| Urls.OriginShape | ereserve_downloader.py:55-59 | every origin is a non-empty scheme, `://` and a non-empty host: either the URL's own or those of the entry URL (line 36) |
| Urls.LastPathSegment | ereserve_downloader.py:62-67 | the segment holds no `/`; it is empty exactly when the path consists only of slashes (or is empty) |
| Urls.LastPathSegmentOfJoin | ereserve_downloader.py:62-67 | the segment of `p/s` is `s` for any slash-free non-empty `s` |
| Urls.LastPathSegmentTrailingSlash | ereserve_downloader.py:64 | a trailing slash does not change the segment |
| SessionBridge.GetCookieValue | ereserve_downloader.py:70-85 | the two early-return loops return exactly the reference lookup; a jar listing that raised counts as empty |
| SessionBridge.LookupPrefersExact | ereserve_downloader.py:76-78 | the first exact-name cookie with a non-empty value wins, whatever case-insensitive matches come before it |
| SessionBridge.LookupFallback | ereserve_downloader.py:80-83 | with no exact hit, the first cookie whose lower-cased name matches and whose value is non-empty is returned |
| SessionBridge.LookupNoneIff | ereserve_downloader.py:76-85 | `None` exactly when no cookie matches the name up to case with a non-empty value |
| SessionBridge.LookupSound | ereserve_downloader.py:76-85 | a returned value is the non-empty value of some cookie of the jar whose name matches up to case |
| SessionBridge.LookupNonEmpty | ereserve_downloader.py:77 | a found value is never empty, so `if not botu_read_kernel` rejects only a missing cookie |
| SessionBridge.FirstHitNone | ereserve_downloader.py:76-79 | one pass finds nothing exactly when no cookie passes its test |
| SessionBridge.FirstHitSource | ereserve_downloader.py:76-79 | a pass returns the value of the first cookie that passes its test |
| SessionBridge.ApiHeaders | ereserve_downloader.py:102-110 | exactly the seven headers; the cookie goes in `botureadkernel`, the referer is passed unchanged, and `origin` is the referer's origin |
| SessionBridge.Snippet | ereserve_downloader.py:115 | the excerpt has at most 500 characters, no newline, and no surrounding whitespace |
| SessionBridge.SnippetOfBody | ereserve_downloader.py:121 | the excerpt is a slice `text[i..j]` of the first 500 characters, with newlines turned into spaces, and only whitespace is cut around it |
| SessionBridge.PostFormJson | ereserve_downloader.py:95-122 | a missing cookie fails first; then a status outside 200..299 fails with the status and excerpt; then a body that is not JSON fails with the excerpt; success exactly otherwise, returning the parsed body |
| Text.StripCutsSpaces | ereserve_downloader.py:152-153 | `strip()` removes exactly a run of whitespace from each end and keeps the middle |
| Text.StripIdempotent | ereserve_downloader.py:153 | stripping a stripped value changes nothing |
| Text.AfterLastOfJoin | ereserve_downloader.py:296 | `rsplit("/", 1)[-1]` of `p/t` is `t` when `t` has no slash |
| ScanIdProbe.ExtractScanIdNow | ereserve_downloader.py:125-155 | the three nested loops return exactly the reference search; any id returned is non-empty and already stripped |
| ScanIdProbe.Accept | ereserve_downloader.py:152-153 | a reader's answer is kept only when it is a string that is not blank, and what is kept is non-empty and stripped |
| ScanIdProbe.ScanFramesIsFirstAccepted | ereserve_downloader.py:134-155 | the nested search equals "the first accepted probe" over all probes in frame, selector and reader order; selectors whose count raised or is 0 contribute no probe |
| ScanIdProbe.FirstAcceptedAt | ereserve_downloader.py:134-153 | a found id comes from some probe `k`, and every earlier probe raised or returned `None` or a blank value |
| ScanIdProbe.FirstAcceptedNone | ereserve_downloader.py:155 | `None` exactly when every probe raised or returned `None` or a blank value |
| ScanIdDiscovery.NewPagesSince | ereserve_downloader.py:158-160 | a page is new exactly when it is open now and was not open before; new pages keep their multiplicity |
| ScanIdDiscovery.NewPagesSinceAppend | ereserve_downloader.py:160 | the filter keeps the order of the open pages |
| ScanIdDiscovery.CandidatesOrder | ereserve_downloader.py:224 | the candidates are the newest new page, then the original page (unless they are the same), then the other new pages in order; no duplicates; exactly the original page and the new pages |
| ScanIdDiscovery.InsertSorted | ereserve_downloader.py:181 | inserting keeps the list strictly sorted and adds exactly the one URL |
| ScanIdDiscovery.SeenUrls | ereserve_downloader.py:181 | the message's URL list is strictly sorted and holds exactly the distinct non-empty recorded URLs |
| ScanIdDiscovery.SortedUnique | ereserve_downloader.py:181 | two strictly sorted lists with the same elements are equal, so the message is determined by the recorded URLs |
| Text.LessTotal | ereserve_downloader.py:181 | Python's string `<` orders any two distinct strings |
| Text.LessTransitive | ereserve_downloader.py:181 | Python's string `<` is transitive |
| ScanIdDiscovery.WaitForScanId | ereserve_downloader.py:163-182 | the polling returns the first hit of the rounds; otherwise it fails with the sorted, distinct, non-empty URLs last recorded per page |
| ScanIdDiscovery.PollRoundFirstHit | ereserve_downloader.py:168-178 | a round that hits returns the id of the first candidate, in candidate order, that shows one, together with that page's URL |
| ScanIdDiscovery.PollRoundMiss | ereserve_downloader.py:168-172 | a round misses exactly when no candidate shows an id; it then holds the current URL of every candidate whose URL was readable and keeps the old record for the others |
| ScanIdDiscovery.WatchFrom | ereserve_downloader.py:221-238 | a hand-off to the wait always has a non-empty candidate list and starts no earlier than the round the watch started from |
| ScanIdDiscovery.DiscoverScanId | ereserve_downloader.py:213-241 | new tabs end the watch and hand the candidates of line 224 to the wait, from the round in which they appeared on; an id on the original page settles at once; an unreadable URL there fails |
| ScanIdDiscovery.QuietTimeout | ereserve_downloader.py:236-238 | with no new tab and no id on the original page, discovery fails with an empty URL list |
| ChapterWalk.ViewerBookId | ereserve_downloader.py:243-245 | the viewer book id is a non-empty slash-free segment; it fails, naming the URL, exactly when there is no URL or its path consists only of slashes |
| ChapterWalk.ChapterList | ereserve_downloader.py:254-256 | accepted exactly when the body is an object whose `data` is a list, and that list is returned |
| ChapterWalk.TitleOf | ereserve_downloader.py:279 | a chapter with a truthy EMID always gets a truthy title (the name, or else `str(emid)`) |
| ChapterWalk.PageKey | ereserve_downloader.py:290-294 | an entry is used only when it is an object with a truthy `hfsKey` |
| ChapterWalk.OutName | ereserve_downloader.py:296 | the file name is non-empty, has no `/`, and is either the key's text after its last slash or `page.jpg` |
| ChapterWalk.OutNameOfKey | ereserve_downloader.py:296 | a key `p/s` is saved as `s`, and as `page.jpg` when it ends with a slash |
| ChapterWalk.OpenChapterCoherent | ereserve_downloader.py:280 | appending `[1, name, page_index + 1]` keeps the book coherent |
| ChapterWalk.PlaceCoherent | ereserve_downloader.py:311-317 | placing one page and incrementing `page_index` keeps the book coherent |
| ChapterWalk.PlaceFrom | ereserve_downloader.py:289-317 | placing images never changes the TOC |
| ChapterWalk.PlaceImages | ereserve_downloader.py:289-317 | the image loop equals the reference placement |
| ChapterWalk.WalkChapters | ereserve_downloader.py:264-317 | the chapter loop equals the reference walk |
| ChapterWalk.WalkFromCoherent | ereserve_downloader.py:264-317 | a finished walk leaves pages numbered 1..`page_index`, TOC entries of level 1 with non-decreasing start pages, and each entry starting right after the pages of the earlier chapters |
| ChapterWalk.FirstPageOfChapter | ereserve_downloader.py:280 | in a coherent book, the TOC entry of a chapter points at the chapter's first page |
| ChapterWalk.PlaceFromAccounting | ereserve_downloader.py:289-317 | placing adds one page per usable manifest entry, in order, and `page_index` grows by exactly that count |
| ChapterWalk.WalkFromTitles | ereserve_downloader.py:264-287 | a finished walk has one TOC entry per chapter item, in input order, including chapters whose manifest is missing |
| ChapterWalk.WalkFromKeys | ereserve_downloader.py:284-317 | a finished walk has placed one page per usable entry of every listed manifest, in order, and `page_index` counts them |
| ChapterWalk.WalkSummary | ereserve_downloader.py:264-317 | from an empty book, a finished walk is coherent; its titles are the chapter titles, each entry starts one past the usable keys of the earlier chapters, and its pages are the usable keys, numbered 1..`page_index` |
| ChapterWalk.WalkFromStarts | ereserve_downloader.py:280 | a finished walk appends one start page per chapter whose call succeeds: one past the usable keys of all chapters before it |
| ChapterWalk.WalkFromErrors | ereserve_downloader.py:264-304 | the walk stops only on a failed chapter API call (missing cookie, HTTP status, non-JSON) or a failed download; malformed items and manifests are skipped |
| ChapterWalk.PlaceFromErrors | ereserve_downloader.py:297-304 | the image loop fails only on a download |
| ChapterWalk.PlaceFromServed | ereserve_downloader.py:289-317 | when every usable key downloads, the image loop finishes |
| ChapterWalk.PlaceFromOkServed | ereserve_downloader.py:301-311 | the image loop finishes only when every usable key downloads and opens |
| ChapterWalk.WalkFromServed | ereserve_downloader.py:264-317 | when every chapter call succeeds and every key downloads, the walk finishes |
| ChapterWalk.WalkFromOkServes | ereserve_downloader.py:264-317 | a walk finishes only when every chapter call succeeded and every key of a listed manifest downloaded |
| ChapterWalk.OneChapterTwoPages | ereserve_downloader.py:264-317 | one chapter "Ch1" with keys `/x/p1.jpg` and `/x/p2.jpg` gives TOC `[[1, "Ch1", 1]]` and pages `p1.jpg`, `p2.jpg` numbered 1 and 2 |
| Json.DecimalDigits | ereserve_downloader.py:279 | `str()` of a non-negative integer is all decimal digits, with no leading zero unless it is `0`, and the digits spell the number back |
| Json.Display | ereserve_downloader.py:279 | `str()` of a string is the string itself, and only the empty string renders as empty |

## Left out

- The browser itself is not part of this model: launching it, navigating, clicking, waiting for the button, the interactive login pause (`input()`), closing pages and the Playwright timeout handler (lines 186-214, 319-328, 337-341). The browser's answers are `Snapshot` parameters.
- `parse_args` and the quoting of the book id (lines 44-52, 205-207, 332) are not modelled.
- Clocks and `time.sleep` are not modelled. The deadline is a finite sequence of rounds, one `Snapshot` per round. Within a round every probe of a page sees the same state.
- ScanIdDiscovery.WaitForScanId: the second read of `p.url` on a hit (line 176) is taken to give the same answer as the read at line 170 in that round.
- ScanIdDiscovery.DiscoverScanId: an exception from reading `page.url` at line 231 ends the program in the source. Here it is the error `UrlUnreadable`.
- The actual HTTP requests are not modelled: headers on the wire, `requests` streaming, and writing and reopening the image file. A manifest call is the oracle's (cookie jar, reply) for the chapter id. A download plus `Image.open` is one boolean per key, and its failure is `DownloadFailed`.
- The oracle does not take the request headers or the `BOOKID` and `Referer` values (lines 251, 274-275, 300) as inputs. Those are fixed for one run.
- The PDF itself is not modelled: page sizes in points (floating point, lines 312-316), PyMuPDF calls, `set_toc` and `save`, and `os.makedirs`. The model keeps the page list and the TOC that are handed to it.
- `urlparse` and `json.loads` are not modelled. A URL arrives already split into scheme, host and path. A reply carries its body text together with the parse of that text (`None` when it is not JSON).
- Json.Display: lists and objects render as the placeholders `[...]` and `{...}`, not as Python's `repr`. JSON floats are not modelled (numbers are integers).
- Text.Lower: lower-cases ASCII letters only. Python's full Unicode case mapping is not modelled.
- ChapterWalk.ChapterList: a chapter-list reply that is not an object is the error `ChaptersNotObject`. In the source, `.get` on a list raises instead.
- `print` output and the per-chapter directories (lines 281-282, 295) are not modelled.
