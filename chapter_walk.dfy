/** The chapter walk of `main`: validating the chapter list, then for every
    chapter fetching its page manifest, adding its table-of-contents entry and
    placing one document page per usable manifest entry. Network replies and
    image downloads are inputs; the walk keeps the TOC, the placed pages and
    the page counter. */
module ChapterWalk {
  import opened Outcomes
  import opened Text
  import opened Json
  import opened Urls
  import opened SessionBridge

  // ---------------------------------------------------------------------
  // Before the walk: the viewer's book id and the chapter list

  /** Lines 243-245: the viewer's book id is the last segment of the URL the
      scan id was found on (`None`: that URL could not be read, i.e. ""). */
  function ViewerBookId(found: Option<Url>): (r: Result<string>)
    ensures r.Ok? ==> r.value != "" && '/' !in r.value
    ensures r.Err? <==> found.None? || forall k :: 0 <= k < |found.value.path| ==> found.value.path[k] == '/'
    ensures r.Err? ==> r.error == MissingViewerContext(if found.Some? then found.value.text else "")
  {
    var segment := if found.Some? then LastPathSegment(found.value.path) else "";
    if segment == "" then Err(MissingViewerContext(if found.Some? then found.value.text else ""))
    else Ok(segment)
  }

  /** Lines 254-256: the chapter-list reply must be an object whose `data` is a
      list; a reply that is not an object makes `.get` raise. */
  function ChapterList(body: Value): (r: Result<seq<Value>>)
    ensures r.Ok? <==> body.Obj? && Get(body.fields, "data").Arr?
    ensures r.Ok? ==> r.value == Get(body.fields, "data").items
    ensures !body.Obj? ==> r == Err(ChaptersNotObject)
    ensures body.Obj? && !Get(body.fields, "data").Arr? ==> r == Err(ChaptersMissingData)
  {
    if !body.Obj? then Err(ChaptersNotObject)
    else
      var data := Get(body.fields, "data");
      if data.Arr? then Ok(data.items) else Err(ChaptersMissingData)
  }

  // ---------------------------------------------------------------------
  // Reading chapter items and manifest entries

  /** `item.get("EMID") or item.get("emid")`. */
  function EmidOf(fields: map<string, Value>): Value {
    var upper := Get(fields, "EMID");
    if Truthy(upper) then upper else Get(fields, "emid")
  }

  /** A chapter item is walked when it is an object with a truthy EMID. */
  predicate IsChapter(item: Value) {
    item.Obj? && Truthy(EmidOf(item.fields))
  }

  /** `item.get("EFRAGMENTNAME") or str(emid)`. */
  function TitleOf(fields: map<string, Value>): (r: Value)
    ensures Truthy(EmidOf(fields)) ==> Truthy(r)
  {
    var name := Get(fields, "EFRAGMENTNAME");
    if Truthy(name) then name else Str(Display(EmidOf(fields)))
  }

  /** `detail["data"]["JGPS"]` when both levels are present and the inner one is
      a list; `None` makes the walk skip the chapter's pages. */
  function Manifest(detail: Value): Option<seq<Value>> {
    if !detail.Obj? then None
    else
      var data := Get(detail.fields, "data");
      if !data.Obj? then None
      else
        var jgps := Get(data.fields, "JGPS");
        if jgps.Arr? then Some(jgps.items) else None
  }

  /** The storage key of a manifest entry: an object with a truthy `hfsKey`. */
  function PageKey(img: Value): (r: Option<Value>)
    ensures r.Some? ==> Truthy(r.value)
  {
    if img.Obj? && Truthy(Get(img.fields, "hfsKey")) then Some(Get(img.fields, "hfsKey")) else None
  }

  /** Line 296: the local file name is the text after the key's last slash, or
      "page.jpg" when that is empty. */
  function OutName(key: Value): (r: string)
    ensures r != "" && '/' !in r
    ensures r == "page.jpg" || r == AfterLast(Display(key), '/')
  {
    var tail := AfterLast(Display(key), '/');
    if tail == "" then "page.jpg" else tail
  }

  /** A key `p/s` is stored under `s`; a key ending in a slash under "page.jpg". */
  lemma OutNameOfKey(p: string, s: string)
    requires '/' !in s
    ensures OutName(Str(p + "/" + s)) == if s == "" then "page.jpg" else s
  {
    AfterLastOfJoin(p, '/', s);
  }

  // ---------------------------------------------------------------------
  // The document being assembled

  /** `[1, name, page]`: a level-1 entry titled `title` that starts at the
      1-based document page `startPage`. */
  datatype TocEntry = TocEntry(level: int, title: Value, startPage: nat)

  /** One document page: its 1-based number, the index of its chapter's TOC
      entry, the storage key it was fetched by and the file it was saved as. */
  datatype PlacedPage = PlacedPage(number: nat, chapter: nat, key: Value, fileName: string)

  /** The walk's state: the `toc` list, the pages placed and `page_index`. */
  datatype Book = Book(toc: seq<TocEntry>, pages: seq<PlacedPage>, pageIndex: nat)

  const EmptyBook: Book := Book([], [], 0)

  /** A name a file can be saved under in the chapter's directory. */
  predicate FileNameOk(name: string) {
    name != "" && '/' !in name
  }

  /** Page `k` (0-based) of the document: numbered `k + 1`, in one of the
      `chapters` chapters with a TOC entry, and saved under a usable name. */
  ghost predicate PageOk(p: PlacedPage, k: nat, chapters: nat) {
    p.number == k + 1 && p.chapter < chapters && FileNameOk(p.fileName)
  }

  /** Pages are numbered 1, 2, ... with no gap, `page_index` counts them,
      each belongs to a chapter with a TOC entry and has a usable file name. */
  ghost predicate PagesNumbered(b: Book) {
    && b.pageIndex == |b.pages|
    && (forall k :: 0 <= k < |b.pages| ==> PageOk(b.pages[k], k, |b.toc|))
  }

  /** Every TOC entry has level 1 and a start page at most one past the last
      page, and start pages never decrease. */
  ghost predicate TocOrdered(b: Book) {
    EntriesWithin(b.toc, b.pageIndex)
  }

  ghost predicate EntriesWithin(toc: seq<TocEntry>, pageIndex: nat) {
    && (forall t :: 0 <= t < |toc| ==>
          toc[t].level == 1 && 1 <= toc[t].startPage <= pageIndex + 1)
    && (forall s, t :: 0 <= s < t < |toc| ==> toc[s].startPage <= toc[t].startPage)
  }

  /** Entry `t` starts right after the pages of the chapters before it: a page
      precedes it exactly when the page belongs to an earlier chapter. */
  ghost predicate TocSplitsPages(b: Book) {
    Splits(b.pages, b.toc)
  }

  ghost predicate Splits(pages: seq<PlacedPage>, toc: seq<TocEntry>) {
    forall k, t :: 0 <= k < |pages| && 0 <= t < |toc| ==>
      (pages[k].chapter < t <==> pages[k].number < toc[t].startPage)
  }

  /** What the walk keeps true of the book. */
  ghost predicate Coherent(b: Book) {
    PagesNumbered(b) && TocOrdered(b) && TocSplitsPages(b)
  }

  /** Line 280: the chapter's entry points at the page the next image will get. */
  function OpenChapter(b: Book, title: Value): Book {
    Book(b.toc + [TocEntry(1, title, b.pageIndex + 1)], b.pages, b.pageIndex)
  }

  /** Lines 311-317: one more document page, in the latest chapter. */
  function Place(b: Book, key: Value): Book
    requires b.toc != []
  {
    Book(b.toc, b.pages + [PlacedPage(b.pageIndex + 1, |b.toc| - 1, key, OutName(key))], b.pageIndex + 1)
  }

  /** Opening a chapter keeps the book coherent. */
  lemma OpenChapterCoherent(b: Book, title: Value)
    requires Coherent(b)
    ensures Coherent(OpenChapter(b, title))
  {
    var r := OpenChapter(b, title);
    var n := |b.toc|;
    assert r.toc[n] == TocEntry(1, title, b.pageIndex + 1);
    assert forall t :: 0 <= t < n ==> r.toc[t] == b.toc[t];
    assert r.pages == b.pages && r.pageIndex == b.pageIndex;
    assert PagesNumbered(r);
    assert TocOrdered(r);
    forall k, t | 0 <= k < |r.pages| && 0 <= t < |r.toc|
      ensures r.pages[k].chapter < t <==> r.pages[k].number < r.toc[t].startPage
    {
      if t == n {
        assert r.pages[k].number <= b.pageIndex;
      }
    }
  }

  /** Placing a page keeps the book coherent. */
  lemma PlaceCoherent(b: Book, key: Value)
    requires b.toc != [] && Coherent(b)
    ensures Coherent(Place(b, key))
  {
    PlaceNumbered(b, key);
    PlaceOrdered(b, key);
    PlaceSplits(b, key);
  }

  lemma PlaceOrdered(b: Book, key: Value)
    requires b.toc != [] && TocOrdered(b)
    ensures TocOrdered(Place(b, key))
  {
    assert Place(b, key).toc == b.toc && Place(b, key).pageIndex == b.pageIndex + 1;
    EntriesWithinGrow(b.toc, b.pageIndex);
  }

  /** One more page placed leaves every entry within the document. */
  lemma EntriesWithinGrow(toc: seq<TocEntry>, pageIndex: nat)
    requires EntriesWithin(toc, pageIndex)
    ensures EntriesWithin(toc, pageIndex + 1)
  {
  }

  lemma PlaceNumbered(b: Book, key: Value)
    requires b.toc != [] && PagesNumbered(b)
    ensures PagesNumbered(Place(b, key))
  {
    var p := PlacedPage(|b.pages| + 1, |b.toc| - 1, key, OutName(key));
    assert PageOk(p, |b.pages|, |b.toc|);
    AppendPageOk(b.pages, p, |b.toc|);
  }

  /** A page numbered right after the others extends a well-numbered list. */
  lemma AppendPageOk(pages: seq<PlacedPage>, p: PlacedPage, chapters: nat)
    requires forall k :: 0 <= k < |pages| ==> PageOk(pages[k], k, chapters)
    requires PageOk(p, |pages|, chapters)
    ensures forall k :: 0 <= k < |pages + [p]| ==> PageOk((pages + [p])[k], k, chapters)
  {
    forall k | 0 <= k < |pages + [p]|
      ensures PageOk((pages + [p])[k], k, chapters)
    {
      if k < |pages| {
        assert (pages + [p])[k] == pages[k];
      }
    }
  }

  lemma PlaceSplits(b: Book, key: Value)
    requires b.toc != [] && PagesNumbered(b) && TocOrdered(b) && TocSplitsPages(b)
    ensures TocSplitsPages(Place(b, key))
  {
    var p := PlacedPage(|b.pages| + 1, |b.toc| - 1, key, OutName(key));
    assert Place(b, key).pages == b.pages + [p];
    AppendSplits(b.pages, p, b.toc);
  }

  /** A page numbered after all others, in the last chapter, is preceded by
      every entry's start exactly as the entry's index says. */
  lemma AppendSplits(pages: seq<PlacedPage>, p: PlacedPage, toc: seq<TocEntry>)
    requires Splits(pages, toc)
    requires p.number == |pages| + 1 && p.chapter == |toc| - 1
    requires forall t :: 0 <= t < |toc| ==> toc[t].startPage <= |pages| + 1
    ensures Splits(pages + [p], toc)
  {
    forall k, t | 0 <= k < |pages + [p]| && 0 <= t < |toc|
      ensures (pages + [p])[k].chapter < t <==> (pages + [p])[k].number < toc[t].startPage
    {
      if k < |pages| {
        assert (pages + [p])[k] == pages[k];
      }
    }
  }



  /** The server as the walk sees it: what one manifest request for a chapter
      id brings back (the cookie jar read for the call and the reply), and
      whether downloading and opening the image of a key succeeds. */
  datatype Server = Server(
    chapter: string -> (Option<seq<Cookie>>, Reply),
    image: string -> bool)

  /** Lines 289-317 as a function: the manifest entries from `imgs` on. */
  function PlaceFrom(imgs: seq<Value>, b: Book, server: Server): (r: Result<Book>)
    requires b.toc != []
    ensures r.Ok? ==> r.value.toc == b.toc
  {
    if imgs == [] then Ok(b)
    else match PageKey(imgs[0])
      case None => PlaceFrom(imgs[1..], b, server)
      case Some(key) =>
        if !server.image(Display(key)) then Err(DownloadFailed(Display(key)))
        else PlaceFrom(imgs[1..], Place(b, key), server)
  }

  /** One step of the image loop: what the entry at `j` does. */
  lemma {:induction false} PlaceFromStep(imgs: seq<Value>, j: nat, b: Book, server: Server)
    requires j < |imgs| && b.toc != []
    ensures PlaceFrom(imgs[j..], b, server) ==
      match PageKey(imgs[j])
      case None => PlaceFrom(imgs[j + 1..], b, server)
      case Some(key) =>
        if !server.image(Display(key)) then Err(DownloadFailed(Display(key)))
        else PlaceFrom(imgs[j + 1..], Place(b, key), server)
  {
    assert imgs[j..][0] == imgs[j] && imgs[j..][1..] == imgs[j + 1..];
  }

  /** Lines 264-317 as a function: the chapter items from `items` on. */
  function WalkFrom(items: seq<Value>, b: Book, server: Server): Result<Book> {
    if items == [] then Ok(b)
    else if !IsChapter(items[0]) then WalkFrom(items[1..], b, server)
    else
      var call := server.chapter(Display(EmidOf(items[0].fields)));
      match PostFormJson(call.0, call.1)
      case Err(e) => Err(e)
      case Ok(detail) =>
        var withEntry := OpenChapter(b, TitleOf(items[0].fields));
        match Manifest(detail)
        case None => WalkFrom(items[1..], withEntry, server)
        case Some(imgs) =>
          match PlaceFrom(imgs, withEntry, server)
          case Err(e) => Err(e)
          case Ok(b') => WalkFrom(items[1..], b', server)
  }

  /** The chapter loop of `main`: appends to `toc`, places pages and counts
      them in `page_index`, skipping non-chapters, unlisted manifests and
      keyless entries, and stopping at the first failed call or download. */
  method WalkChapters(data: seq<Value>, server: Server) returns (r: Result<Book>)
    ensures r == WalkFrom(data, EmptyBook, server)
  {
    var toc: seq<TocEntry> := [];
    var pages: seq<PlacedPage> := [];
    var pageIndex: nat := 0;
    for i := 0 to |data|
      invariant WalkFrom(data, EmptyBook, server) == WalkFrom(data[i..], Book(toc, pages, pageIndex), server)
    {
      assert data[i..][1..] == data[i + 1..];
      ghost var current := Book(toc, pages, pageIndex);
      var item := data[i];
      if !item.Obj? {
        continue;
      }
      var emid := EmidOf(item.fields);
      if !Truthy(emid) {
        continue;
      }
      var call := server.chapter(Display(emid));
      var detail := PostFormJson(call.0, call.1);
      if detail.Err? {
        return Err(detail.error);
      }
      toc := toc + [TocEntry(1, TitleOf(item.fields), pageIndex + 1)];
      assert Book(toc, pages, pageIndex) == OpenChapter(current, TitleOf(item.fields));
      var jgps := Manifest(detail.value);
      if jgps.None? {
        continue;
      }
      var placed := PlaceImages(jgps.value, Book(toc, pages, pageIndex), server);
      if placed.Err? {
        return Err(placed.error);
      }
      pages, pageIndex := placed.value.pages, placed.value.pageIndex;
      assert toc == placed.value.toc;
    }
    return Ok(Book(toc, pages, pageIndex));
  }

  /** The image loop of the chapter loop (lines 289-317): places a page and
      bumps `page_index` per usable manifest entry, stopping at the first
      failed download. */
  method PlaceImages(imgs: seq<Value>, b: Book, server: Server) returns (r: Result<Book>)
    requires b.toc != []
    ensures r == PlaceFrom(imgs, b, server)
  {
    var pages, pageIndex := b.pages, b.pageIndex;
    for j := 0 to |imgs|
      invariant PlaceFrom(imgs, b, server) == PlaceFrom(imgs[j..], Book(b.toc, pages, pageIndex), server)
    {
      PlaceFromStep(imgs, j, Book(b.toc, pages, pageIndex), server);
      var key := PageKey(imgs[j]);
      if key.None? {
        continue;
      }
      var outName := OutName(key.value);
      if !server.image(Display(key.value)) {
        return Err(DownloadFailed(Display(key.value)));
      }
      ghost var before := Book(b.toc, pages, pageIndex);
      pages := pages + [PlacedPage(pageIndex + 1, |b.toc| - 1, key.value, outName)];
      pageIndex := pageIndex + 1;
      assert Book(b.toc, pages, pageIndex) == Place(before, key.value);
    }
    return Ok(Book(b.toc, pages, pageIndex));
  }

  // ---------------------------------------------------------------------
  // What the walk promises

  lemma {:induction false} PlaceFromCoherent(imgs: seq<Value>, b: Book, server: Server)
    requires b.toc != [] && Coherent(b)
    ensures PlaceFrom(imgs, b, server).Ok? ==> Coherent(PlaceFrom(imgs, b, server).value)
  {
    if imgs != [] {
      match PageKey(imgs[0])
      case None => PlaceFromCoherent(imgs[1..], b, server);
      case Some(key) =>
        if server.image(Display(key)) {
          PlaceCoherent(b, key);
          PlaceFromCoherent(imgs[1..], Place(b, key), server);
        }
    }
  }

  /** Every walk that finishes leaves a coherent book. */
  lemma {:induction false} WalkFromCoherent(items: seq<Value>, b: Book, server: Server)
    requires Coherent(b)
    ensures WalkFrom(items, b, server).Ok? ==> Coherent(WalkFrom(items, b, server).value)
  {
    if items != [] {
      if !IsChapter(items[0]) {
        WalkFromCoherent(items[1..], b, server);
      } else {
        var call := server.chapter(Display(EmidOf(items[0].fields)));
        var jar, reply := call.0, call.1;
        if PostFormJson(jar, reply).Ok? {
          var withEntry := OpenChapter(b, TitleOf(items[0].fields));
          match Manifest(PostFormJson(jar, reply).value)
          case None =>
            OpenChapterCoherent(b, TitleOf(items[0].fields));
            WalkFromCoherent(items[1..], withEntry, server);
          case Some(imgs) =>
            OpenChapterCoherent(b, TitleOf(items[0].fields));
            PlaceFromCoherent(imgs, withEntry, server);
            if PlaceFrom(imgs, withEntry, server).Ok? {
              WalkFromCoherent(items[1..], PlaceFrom(imgs, withEntry, server).value, server);
            }
        }
      }
    }
  }

  /** In a coherent book, the first page of every chapter is the page its TOC
      entry names. */
  lemma FirstPageOfChapter(b: Book, k: nat)
    requires Coherent(b) && k < |b.pages|
    requires k == 0 || b.pages[k - 1].chapter < b.pages[k].chapter
    ensures b.toc[b.pages[k].chapter].startPage == b.pages[k].number
  {
    var t := b.pages[k].chapter;
    assert !(b.pages[k].number < b.toc[t].startPage);
    if k > 0 {
      assert b.pages[k - 1].number < b.toc[t].startPage;
    }
  }

  /** The titles of the TOC entries, in order. */
  function Titles(toc: seq<TocEntry>): seq<Value> {
    if toc == [] then [] else Titles(toc[..|toc| - 1]) + [toc[|toc| - 1].title]
  }

  /** The title of every chapter item, in input order, whatever its manifest. */
  function ChapterTitles(items: seq<Value>): seq<Value> {
    if items == [] then []
    else (if IsChapter(items[0]) then [TitleOf(items[0].fields)] else []) + ChapterTitles(items[1..])
  }

  /** The storage keys of the pages placed, in order. */
  function Keys(pages: seq<PlacedPage>): seq<Value> {
    if pages == [] then [] else Keys(pages[..|pages| - 1]) + [pages[|pages| - 1].key]
  }

  /** The usable keys of a manifest, in order. */
  function ManifestKeys(imgs: seq<Value>): seq<Value> {
    if imgs == [] then []
    else (if PageKey(imgs[0]).Some? then [PageKey(imgs[0]).value] else []) + ManifestKeys(imgs[1..])
  }

  /** The usable keys one chapter item contributes: those of its manifest,
      when it is a chapter whose call succeeds and whose manifest is listed. */
  function ItemKeys(item: Value, server: Server): seq<Value> {
    if !IsChapter(item) then []
    else
      var call := server.chapter(Display(EmidOf(item.fields)));
      var detail := PostFormJson(call.0, call.1);
      if detail.Ok? && Manifest(detail.value).Some? then ManifestKeys(Manifest(detail.value).value) else []
  }

  /** The usable keys of every chapter whose manifest the server lists. */
  function ChapterKeys(items: seq<Value>, server: Server): seq<Value> {
    if items == [] then [] else ItemKeys(items[0], server) + ChapterKeys(items[1..], server)
  }

  /** The start pages of the TOC entries, in order. */
  function Starts(toc: seq<TocEntry>): seq<nat> {
    if toc == [] then [] else Starts(toc[..|toc| - 1]) + [toc[|toc| - 1].startPage]
  }

  /** Where each chapter item's entry should point when `placed` pages come
      before the items: one past the usable keys of all earlier chapters. */
  function ChapterStarts(items: seq<Value>, server: Server, placed: nat): seq<nat> {
    if items == [] then []
    else
      (if IsChapter(items[0]) then [placed + 1] else [])
      + ChapterStarts(items[1..], server, placed + |ItemKeys(items[0], server)|)
  }

  lemma TitlesAppend(toc: seq<TocEntry>, e: TocEntry)
    ensures Titles(toc + [e]) == Titles(toc) + [e.title]
  {
    assert (toc + [e])[..|toc|] == toc;
  }

  lemma StartsAppend(toc: seq<TocEntry>, e: TocEntry)
    ensures Starts(toc + [e]) == Starts(toc) + [e.startPage]
  {
    assert (toc + [e])[..|toc|] == toc;
  }

  lemma KeysAppend(pages: seq<PlacedPage>, p: PlacedPage)
    ensures Keys(pages + [p]) == Keys(pages) + [p.key]
  {
    assert (pages + [p])[..|pages|] == pages;
  }

  lemma {:induction false} PlaceFromAccounting(imgs: seq<Value>, b: Book, server: Server)
    requires b.toc != []
    ensures PlaceFrom(imgs, b, server).Ok? ==>
      var b' := PlaceFrom(imgs, b, server).value;
      Keys(b'.pages) == Keys(b.pages) + ManifestKeys(imgs)
      && b'.pageIndex == b.pageIndex + |ManifestKeys(imgs)|
  {
    if imgs != [] {
      match PageKey(imgs[0])
      case None =>
        assert ManifestKeys(imgs) == ManifestKeys(imgs[1..]);
        PlaceFromAccounting(imgs[1..], b, server);
      case Some(key) =>
        if server.image(Display(key)) {
          var placed := Place(b, key);
          assert ManifestKeys(imgs) == [key] + ManifestKeys(imgs[1..]);
          assert PlaceFrom(imgs, b, server) == PlaceFrom(imgs[1..], placed, server);
          KeysAppend(b.pages, placed.pages[|placed.pages| - 1]);
          PlaceFromAccounting(imgs[1..], placed, server);
        }
    }
  }

  /** A walk that finishes has one TOC entry per chapter item, in input order,
      even for chapters whose manifest is missing or unlisted. */
  lemma {:induction false} WalkFromTitles(items: seq<Value>, b: Book, server: Server)
    ensures WalkFrom(items, b, server).Ok? ==>
      Titles(WalkFrom(items, b, server).value.toc) == Titles(b.toc) + ChapterTitles(items)
  {
    if items != [] {
      if !IsChapter(items[0]) {
        WalkFromTitles(items[1..], b, server);
      } else {
        var call := server.chapter(Display(EmidOf(items[0].fields)));
        var jar, reply := call.0, call.1;
        if PostFormJson(jar, reply).Ok? {
          var title := TitleOf(items[0].fields);
          var withEntry := OpenChapter(b, title);
          TitlesAppend(b.toc, TocEntry(1, title, b.pageIndex + 1));
          match Manifest(PostFormJson(jar, reply).value)
          case None => WalkFromTitles(items[1..], withEntry, server);
          case Some(imgs) =>
            if PlaceFrom(imgs, withEntry, server).Ok? {
              WalkFromTitles(items[1..], PlaceFrom(imgs, withEntry, server).value, server);
            }
        }
      }
    }
  }

  /** A walk that finishes has placed one page per usable manifest entry, in
      order, and `page_index` counts them. */
  lemma {:induction false} WalkFromKeys(items: seq<Value>, b: Book, server: Server)
    ensures WalkFrom(items, b, server).Ok? ==>
      var b' := WalkFrom(items, b, server).value;
      && Keys(b'.pages) == Keys(b.pages) + ChapterKeys(items, server)
      && b'.pageIndex == b.pageIndex + |ChapterKeys(items, server)|
  {
    if items != [] {
      if !IsChapter(items[0]) {
        WalkFromKeys(items[1..], b, server);
      } else {
        var call := server.chapter(Display(EmidOf(items[0].fields)));
        var jar, reply := call.0, call.1;
        if PostFormJson(jar, reply).Ok? {
          var detail := PostFormJson(jar, reply).value;
          var withEntry := OpenChapter(b, TitleOf(items[0].fields));
          match Manifest(detail)
          case None =>
            assert ChapterKeys(items, server) == ChapterKeys(items[1..], server);
            assert WalkFrom(items, b, server) == WalkFrom(items[1..], withEntry, server);
            WalkFromKeys(items[1..], withEntry, server);
          case Some(imgs) =>
            assert ChapterKeys(items, server) == ManifestKeys(imgs) + ChapterKeys(items[1..], server);
            PlaceFromAccounting(imgs, withEntry, server);
            if PlaceFrom(imgs, withEntry, server).Ok? {
              var placed := PlaceFrom(imgs, withEntry, server).value;
              assert WalkFrom(items, b, server) == WalkFrom(items[1..], placed, server);
              WalkFromKeys(items[1..], placed, server);
            }
        }
      }
    }
  }
  /** A walk that finishes points each chapter's entry at the page after the
      usable keys of all earlier chapters: its first page when it has one. */
  lemma {:induction false} WalkFromStarts(items: seq<Value>, b: Book, server: Server)
    ensures WalkFrom(items, b, server).Ok? ==>
      Starts(WalkFrom(items, b, server).value.toc) == Starts(b.toc) + ChapterStarts(items, server, b.pageIndex)
    decreases |items|, 1
  {
    if items == [] {
      assert Starts(b.toc) + [] == Starts(b.toc);
    } else if !IsChapter(items[0]) {
      assert ChapterStarts(items, server, b.pageIndex) == ChapterStarts(items[1..], server, b.pageIndex);
      assert WalkFrom(items, b, server) == WalkFrom(items[1..], b, server);
      WalkFromStarts(items[1..], b, server);
    } else {
      ChapterStartsStep(items, b, server);
    }
  }

  /** The step of `WalkFromStarts` for a chapter item. */
  lemma {:induction false} ChapterStartsStep(items: seq<Value>, b: Book, server: Server)
    requires items != [] && IsChapter(items[0])
    ensures WalkFrom(items, b, server).Ok? ==>
      Starts(WalkFrom(items, b, server).value.toc) == Starts(b.toc) + ChapterStarts(items, server, b.pageIndex)
    decreases |items|, 0
  {
    var call := server.chapter(Display(EmidOf(items[0].fields)));
    if PostFormJson(call.0, call.1).Err? {
      assert WalkFrom(items, b, server).Err?;
      return;
    }
    var detail := PostFormJson(call.0, call.1).value;
    var title := TitleOf(items[0].fields);
    var withEntry := OpenChapter(b, title);
    var placed := b.pageIndex + |ItemKeys(items[0], server)|;
    var rest := ChapterStarts(items[1..], server, placed);
    assert ChapterStarts(items, server, b.pageIndex) == [b.pageIndex + 1] + rest;
    var next: Book;
    match Manifest(detail) {
      case None =>
        next := withEntry;
        assert ItemKeys(items[0], server) == [];
      case Some(imgs) =>
        assert ItemKeys(items[0], server) == ManifestKeys(imgs);
        PlaceFromAccounting(imgs, withEntry, server);
        if PlaceFrom(imgs, withEntry, server).Err? {
          assert WalkFrom(items, b, server).Err?;
          return;
        }
        next := PlaceFrom(imgs, withEntry, server).value;
    }
    assert WalkFrom(items, b, server) == WalkFrom(items[1..], next, server);
    assert next.pageIndex == placed;
    assert Starts(next.toc) == Starts(b.toc) + [b.pageIndex + 1] by {
      assert next.toc == b.toc + [TocEntry(1, title, b.pageIndex + 1)];
      StartsAppend(b.toc, TocEntry(1, title, b.pageIndex + 1));
    }
    WalkFromStarts(items[1..], next, server);
    assert ChapterStarts(items[1..], server, next.pageIndex) == rest;
    if WalkFrom(items, b, server).Ok? {
      var done := WalkFrom(items[1..], next, server).value;
      assert Starts(done.toc) == Starts(next.toc) + rest;
      ConcatAssoc(Starts(b.toc), [b.pageIndex + 1], rest);
      assert Starts(done.toc) == Starts(b.toc) + ChapterStarts(items, server, b.pageIndex);
    }
  }





  /** The walk stops early only on a failed API call or a failed download: a
      malformed manifest or an unusable entry is skipped, never fatal. */
  lemma {:induction false} WalkFromErrors(items: seq<Value>, b: Book, server: Server)
    ensures WalkFrom(items, b, server).Err? ==>
      var e := WalkFrom(items, b, server).error;
      e.MissingCredential? || e.ApiHttpError? || e.ApiNotJson? || e.DownloadFailed?
  {
    if items != [] {
      if !IsChapter(items[0]) {
        WalkFromErrors(items[1..], b, server);
      } else {
        var call := server.chapter(Display(EmidOf(items[0].fields)));
        var jar, reply := call.0, call.1;
        if PostFormJson(jar, reply).Ok? {
          var withEntry := OpenChapter(b, TitleOf(items[0].fields));
          match Manifest(PostFormJson(jar, reply).value)
          case None => WalkFromErrors(items[1..], withEntry, server);
          case Some(imgs) =>
            PlaceFromErrors(imgs, withEntry, server);
            if PlaceFrom(imgs, withEntry, server).Ok? {
              WalkFromErrors(items[1..], PlaceFrom(imgs, withEntry, server).value, server);
            }
        }
      }
    }
  }

  lemma {:induction false} PlaceFromErrors(imgs: seq<Value>, b: Book, server: Server)
    requires b.toc != []
    ensures PlaceFrom(imgs, b, server).Err? ==> PlaceFrom(imgs, b, server).error.DownloadFailed?
  {
    if imgs != [] {
      match PageKey(imgs[0])
      case None => PlaceFromErrors(imgs[1..], b, server);
      case Some(key) =>
        if server.image(Display(key)) {
          PlaceFromErrors(imgs[1..], Place(b, key), server);
        }
    }
  }

  /** From an empty book, a walk that finishes yields a coherent book whose TOC
      titles are the chapter items' titles in input order and whose pages are
      the usable manifest entries in order, numbered 1..`page_index`. */
  lemma WalkSummary(data: seq<Value>, server: Server)
    ensures WalkFrom(data, EmptyBook, server).Ok? ==>
      var b := WalkFrom(data, EmptyBook, server).value;
      && Coherent(b)
      && Titles(b.toc) == ChapterTitles(data)
      && Starts(b.toc) == ChapterStarts(data, server, 0)
      && Keys(b.pages) == ChapterKeys(data, server)
      && b.pageIndex == |ChapterKeys(data, server)|
  {
    var e := EmptyBook;
    assert Coherent(e) by {
      assert PagesNumbered(e) && EntriesWithin(e.toc, 0) && Splits(e.pages, e.toc);
    }
    assert Titles(e.toc) == [] && Starts(e.toc) == [] && Keys(e.pages) == [] && e.pageIndex == 0;
    WalkFromCoherent(data, e, server);
    WalkFromTitles(data, e, server);
    WalkFromStarts(data, e, server);
    WalkFromKeys(data, e, server);
  }

  /** The server opens the image of every usable key of a manifest. */
  ghost predicate ManifestServed(imgs: seq<Value>, server: Server) {
    forall j :: 0 <= j < |imgs| ==> PageKey(imgs[j]).Some? ==> server.image(Display(PageKey(imgs[j]).value))
  }

  /** The server answers the call a chapter item makes, and the downloads of
      its manifest when one is listed; a non-chapter asks for nothing. */
  ghost predicate ItemServed(item: Value, server: Server) {
    IsChapter(item) ==>
      var call := server.chapter(Display(EmidOf(item.fields)));
      var detail := PostFormJson(call.0, call.1);
      && detail.Ok?
      && (Manifest(detail.value).Some? ==> ManifestServed(Manifest(detail.value).value, server))
  }

  /** The server answers every call a walk over `items` makes. */
  ghost predicate Serves(items: seq<Value>, server: Server) {
    forall i :: 0 <= i < |items| ==> ItemServed(items[i], server)
  }

  lemma {:induction false} PlaceFromServed(imgs: seq<Value>, b: Book, server: Server)
    requires b.toc != []
    requires ManifestServed(imgs, server)
    ensures PlaceFrom(imgs, b, server).Ok?
  {
    if imgs != [] {
      assert forall j :: 1 <= j < |imgs| ==> imgs[1..][j - 1] == imgs[j];
      match PageKey(imgs[0])
      case None => PlaceFromServed(imgs[1..], b, server);
      case Some(key) => PlaceFromServed(imgs[1..], Place(b, key), server);
    }
  }

  /** Conversely, the image loop finishes only when every usable key's image
      opens: one failed download stops it. */
  lemma {:induction false} PlaceFromOkServed(imgs: seq<Value>, b: Book, server: Server)
    requires b.toc != []
    ensures PlaceFrom(imgs, b, server).Ok? ==> ManifestServed(imgs, server)
  {
    if imgs != [] && PlaceFrom(imgs, b, server).Ok? {
      var tail := imgs[1..];
      match PageKey(imgs[0])
      case None =>
        PlaceFromOkServed(tail, b, server);
      case Some(key) =>
        assert server.image(Display(key));
        PlaceFromOkServed(tail, Place(b, key), server);
      forall j | 1 <= j < |imgs| ensures imgs[j] == tail[j - 1] { }
    }
  }

  /** When every call and every download succeeds, the walk finishes: skipped
      items, unlisted manifests and keyless entries never stop it. */
  lemma {:induction false} WalkFromServed(items: seq<Value>, b: Book, server: Server)
    requires Serves(items, server)
    ensures WalkFrom(items, b, server).Ok?
  {
    if items != [] {
      assert Serves(items[1..], server) by {
        forall i | 0 <= i < |items[1..]| ensures items[1..][i] == items[i + 1] { }
      }
      assert ItemServed(items[0], server);
      if !IsChapter(items[0]) {
        WalkFromServed(items[1..], b, server);
      } else {
        var call := server.chapter(Display(EmidOf(items[0].fields)));
        var detail := PostFormJson(call.0, call.1);
        var withEntry := OpenChapter(b, TitleOf(items[0].fields));
        match Manifest(detail.value)
        case None => WalkFromServed(items[1..], withEntry, server);
        case Some(imgs) =>
          PlaceFromServed(imgs, withEntry, server);
          WalkFromServed(items[1..], PlaceFrom(imgs, withEntry, server).value, server);
      }
    }
  }

  /** Conversely, a walk finishes only when the server answered every chapter
      call and every download it asked for. */
  lemma {:induction false} WalkFromOkServes(items: seq<Value>, b: Book, server: Server)
    ensures WalkFrom(items, b, server).Ok? ==> Serves(items, server)
  {
    if items != [] && WalkFrom(items, b, server).Ok? {
      var tail := items[1..];
      if !IsChapter(items[0]) {
        assert WalkFrom(items, b, server) == WalkFrom(tail, b, server);
        WalkFromOkServes(tail, b, server);
      } else {
        var call := server.chapter(Display(EmidOf(items[0].fields)));
        assert PostFormJson(call.0, call.1).Ok?;
        var detail := PostFormJson(call.0, call.1).value;
        var withEntry := OpenChapter(b, TitleOf(items[0].fields));
        match Manifest(detail) {
          case None =>
            assert WalkFrom(items, b, server) == WalkFrom(tail, withEntry, server);
            WalkFromOkServes(tail, withEntry, server);
          case Some(imgs) =>
            assert PlaceFrom(imgs, withEntry, server).Ok?;
            PlaceFromOkServed(imgs, withEntry, server);
            var placed := PlaceFrom(imgs, withEntry, server).value;
            assert WalkFrom(items, b, server) == WalkFrom(tail, placed, server);
            WalkFromOkServes(tail, placed, server);
        }
      }
      assert ItemServed(items[0], server);
      forall i | 1 <= i < |items| ensures items[i] == tail[i - 1] { }
    }
  }

  /** One chapter "Ch1" whose manifest lists `/x/p1.jpg` and `/x/p2.jpg` gives
      a two-page document whose only TOC entry starts at page 1. */
  lemma OneChapterTwoPages(server: Server, text: string)
    requires server.chapter("A") == (Some([Cookie(SessionCookie, "t")]), Reply(200, text, Some(ScenarioDetail())))
    requires server.image("/x/p1.jpg") && server.image("/x/p2.jpg")
    ensures WalkFrom([ScenarioChapter()], EmptyBook, server) == Ok(ScenarioBook())
  {
    var item := ScenarioChapter();
    assert IsChapter(item) && EmidOf(item.fields) == Str("A") && TitleOf(item.fields) == Str("Ch1");
    var call := server.chapter(Display(EmidOf(item.fields)));
    ScenarioCookie();
    assert PostFormJson(call.0, call.1) == Ok(ScenarioDetail());
    assert Manifest(ScenarioDetail()) == Some(ScenarioManifest());
    ScenarioPlacement(server);
    assert [item][1..] == [];
  }

  function ScenarioBook(): Book {
    Book([TocEntry(1, Str("Ch1"), 1)],
         [PlacedPage(1, 0, Str("/x/p1.jpg"), "p1.jpg"), PlacedPage(2, 0, Str("/x/p2.jpg"), "p2.jpg")],
         2)
  }

  function ScenarioChapter(): Value {
    Obj(map["EMID" := Str("A"), "EFRAGMENTNAME" := Str("Ch1")])
  }

  function ScenarioManifest(): seq<Value> {
    [Obj(map["hfsKey" := Str("/x/p1.jpg")]), Obj(map["hfsKey" := Str("/x/p2.jpg")])]
  }

  function ScenarioDetail(): Value {
    Obj(map["data" := Obj(map["JGPS" := Arr(ScenarioManifest())])])
  }

  lemma ScenarioCookie()
    ensures CookieLookup(Some([Cookie(SessionCookie, "t")]), SessionCookie) == Some("t")
  {
    var cs := [Cookie(SessionCookie, "t")];
    assert ExactHit(cs[0], SessionCookie);
    assert FirstHit(cs, SessionCookie, true) == Some("t");
  }

  lemma ScenarioPlacement(server: Server)
    requires server.image("/x/p1.jpg") && server.image("/x/p2.jpg")
    ensures PlaceFrom(ScenarioManifest(), OpenChapter(EmptyBook, Str("Ch1")), server) == Ok(ScenarioBook())
  {
    var imgs := ScenarioManifest();
    var one, two := Str("/x/p1.jpg"), Str("/x/p2.jpg");
    var b0 := OpenChapter(EmptyBook, Str("Ch1"));
    var b1 := Place(b0, one);
    var b2 := Place(b1, two);
    ScenarioBooks();
    ScenarioKeys();
    assert Display(one) == "/x/p1.jpg" && Display(two) == "/x/p2.jpg";
    assert |imgs| == 2 && imgs[0..] == imgs && imgs[2..] == [];
    PlaceFromStep(imgs, 1, b1, server);
    assert PlaceFrom(imgs[1..], b1, server) == Ok(b2);
    PlaceFromStep(imgs, 0, b0, server);
  }

  lemma ScenarioBooks()
    ensures Place(Place(OpenChapter(EmptyBook, Str("Ch1")), Str("/x/p1.jpg")), Str("/x/p2.jpg")) == ScenarioBook()
  {
    ScenarioNames();
    var b0 := OpenChapter(EmptyBook, Str("Ch1"));
    var b1 := Place(b0, Str("/x/p1.jpg"));
    assert b1.pageIndex == 1 && b1.toc == b0.toc;
    var b2 := Place(b1, Str("/x/p2.jpg"));
    assert b2.pageIndex == 2 && b2.pages == b1.pages + [PlacedPage(2, 0, Str("/x/p2.jpg"), "p2.jpg")];
  }

  lemma ScenarioKeys()
    ensures PageKey(ScenarioManifest()[0]) == Some(Str("/x/p1.jpg"))
    ensures PageKey(ScenarioManifest()[1]) == Some(Str("/x/p2.jpg"))
  {
    var imgs := ScenarioManifest();
    assert Get(imgs[0].fields, "hfsKey") == Str("/x/p1.jpg");
    assert Get(imgs[1].fields, "hfsKey") == Str("/x/p2.jpg");
  }

  /** The scenario's keys are saved under their last segments. */
  lemma ScenarioNames()
    ensures OutName(Str("/x/p1.jpg")) == "p1.jpg" && OutName(Str("/x/p2.jpg")) == "p2.jpg"
  {
    ScenarioName("p1.jpg", "/x/p1.jpg");
    ScenarioName("p2.jpg", "/x/p2.jpg");
  }

  /** A key under `/x` is saved under its own name. */
  lemma ScenarioName(s: string, key: string)
    requires s != "" && '/' !in s
    requires |key| == 3 + |s| && key[..2] == "/x" && key[2] == '/' && key[3..] == s
    ensures OutName(Str(key)) == s
  {
    OutNameOfKey("/x", s);
    SplitKey("/x", s, key);
  }

  lemma SplitKey(p: string, s: string, key: string)
    requires |key| == |p| + 1 + |s| && key[..|p|] == p && key[|p|] == '/' && key[|p| + 1..] == s
    ensures p + "/" + s == key
  {
  }
}
