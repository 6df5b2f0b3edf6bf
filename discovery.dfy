/** Finding the scan id after the "read" button is clicked: which pages are
    new, the priority order in which candidate pages are polled, one polling
    round of `_wait_for_scanid`, the diagnostic list of URLs seen, and the
    watch loop in `main` that decides between polling the original page and
    polling the new tabs. Time is modelled as the finite sequence of polls
    that fit before the deadline; both loops draw from the same sequence. */
module ScanIdDiscovery {
  import opened Outcomes
  import opened Text
  import opened Urls
  import opened ScanIdProbe

  // ---------------------------------------------------------------------
  // New pages and the candidate order

  /** `_new_pages_since`: the pages of `current` whose identity is not among
      `before`, in their order in `current`. */
  function NewPagesSince(current: seq<PageId>, before: seq<PageId>): (r: seq<PageId>)
    ensures forall p :: p in r <==> p in current && p !in before
    ensures forall p :: multiset(r)[p] == if p in before then 0 else multiset(current)[p]
  {
    if current == [] then []
    else
      assert current == [current[0]] + current[1..];
      (if current[0] in before then [] else [current[0]]) + NewPagesSince(current[1..], before)
  }

  /** Filtering distributes over concatenation: the new pages keep their order. */
  lemma {:induction false} NewPagesSinceAppend(a: seq<PageId>, b: seq<PageId>, before: seq<PageId>)
    ensures NewPagesSince(a + b, before) == NewPagesSince(a, before) + NewPagesSince(b, before)
  {
    if a == [] {
      assert a + b == b;
    } else {
      assert (a + b)[1..] == a[1..] + b;
      NewPagesSinceAppend(a[1..], b, before);
    }
  }

  predicate NoDuplicates(xs: seq<PageId>) {
    forall i, j :: 0 <= i < j < |xs| ==> xs[i] != xs[j]
  }

  /** `dict.fromkeys(xs)` without the keys already in `seen`: first occurrences,
      in order. */
  function DedupAvoiding(xs: seq<PageId>, seen: set<PageId>): (r: seq<PageId>)
    ensures NoDuplicates(r)
    ensures forall p :: p in r <==> p in xs && p !in seen
  {
    if xs == [] then []
    else if xs[0] in seen then DedupAvoiding(xs[1..], seen)
    else
      var rest := DedupAvoiding(xs[1..], seen + {xs[0]});
      assert forall p :: p in xs[1..] ==> p in xs;
      [xs[0]] + rest
  }

  /** `list(dict.fromkeys(xs))`. */
  function Dedup(xs: seq<PageId>): seq<PageId> {
    DedupAvoiding(xs, {})
  }

  /** The candidate list of line 224: `[newest, page] + new`, de-duplicated. */
  function Candidates(newPages: seq<PageId>, page: PageId): seq<PageId>
    requires newPages != []
  {
    Dedup([newPages[|newPages| - 1], page] + newPages)
  }

  /** The candidates are the newest new page, then the original page, then the
      other new pages in their order, each once; nothing else is polled. */
  lemma {:induction false} CandidatesOrder(newPages: seq<PageId>, page: PageId)
    requires newPages != []
    ensures var r, newest := Candidates(newPages, page), newPages[|newPages| - 1];
      && r == [newest] + (if page == newest then [] else [page])
               + DedupAvoiding(newPages, {newest, page})
      && NoDuplicates(r)
      && (forall p :: p in r <==> p == page || p in newPages)
      && r[0] == newest
      && (page != newest ==> |r| > 1 && r[1] == page)
  {
    CandidatesUnfold(newPages, page);
  }

  /** The de-duplication of line 224 taken apart: the newest page, the
      original page unless it is the newest, then the unseen new pages. */
  lemma {:induction false} CandidatesUnfold(newPages: seq<PageId>, page: PageId)
    requires newPages != []
    ensures var newest := newPages[|newPages| - 1];
      Candidates(newPages, page) == [newest] + (if page == newest then [] else [page])
        + DedupAvoiding(newPages, {newest, page})
  {
    var newest := newPages[|newPages| - 1];
    var mid := if page == newest then [] else [page];
    var rest := DedupAvoiding(newPages, {newest, page});
    NewestFirst(newPages, page, newest);
    OriginalThenNew(newPages, page, newest);
    ConcatAssoc([newest], mid, rest);
  }

  /** The newest page heads the candidates, ahead of everything else. */
  lemma {:induction false} NewestFirst(newPages: seq<PageId>, page: PageId, newest: PageId)
    requires newPages != [] && newest == newPages[|newPages| - 1]
    ensures Candidates(newPages, page) == [newest] + DedupAvoiding([page] + newPages, {newest})
  {
    assert [newest, page] + newPages == [newest] + ([page] + newPages);
    DedupFresh(newest, [page] + newPages, {});
    assert {} + {newest} == {newest};
  }

  /** Skipping the newest page, the original page comes next unless it is the
      newest page itself. */
  lemma {:induction false} OriginalThenNew(newPages: seq<PageId>, page: PageId, newest: PageId)
    ensures DedupAvoiding([page] + newPages, {newest})
      == (if page == newest then [] else [page]) + DedupAvoiding(newPages, {newest, page})
  {
    if page == newest {
      DedupSeen(page, newPages, {newest});
      assert {newest} == {newest, page};
    } else {
      DedupFresh(page, newPages, {newest});
      assert {newest} + {page} == {newest, page};
    }
  }

  /** A first occurrence is kept and joins the keys seen. */
  lemma {:induction false} DedupFresh(x: PageId, xs: seq<PageId>, seen: set<PageId>)
    requires x !in seen
    ensures DedupAvoiding([x] + xs, seen) == [x] + DedupAvoiding(xs, seen + {x})
  {
    assert ([x] + xs)[0] == x && ([x] + xs)[1..] == xs;
  }

  /** A key already seen is dropped. */
  lemma {:induction false} DedupSeen(x: PageId, xs: seq<PageId>, seen: set<PageId>)
    requires x in seen
    ensures DedupAvoiding([x] + xs, seen) == DedupAvoiding(xs, seen)
  {
    assert ([x] + xs)[0] == x && ([x] + xs)[1..] == xs;
  }

  // ---------------------------------------------------------------------
  // One polling round and the rounds up to the deadline

  /** A scan id together with the URL of the page that showed it (`None` when
      reading that URL raised, which the source reports as ""). */
  datatype Found = Found(scanId: string, url: Option<Url>)

  /** How polling ends: with a hit, or with the last URL seen per page. */
  datatype Poll = Hit(found: Found) | Miss(lastUrls: map<PageId, string>)

  /** `last_urls[id(p)] = p.url`, skipped when reading the URL raises. */
  function Remember(snap: Snapshot, p: PageId, last: map<PageId, string>): map<PageId, string> {
    if snap.url(p).Some? then last[p := snap.url(p).value.text] else last
  }

  /** One pass of `_wait_for_scanid` over the candidate pages. */
  function PollRound(snap: Snapshot, pages: seq<PageId>, last: map<PageId, string>): Poll {
    if pages == [] then Miss(last)
    else
      var last' := Remember(snap, pages[0], last);
      var id := ScanPage(snap, pages[0]);
      if id.Some? then Hit(Found(id.value, snap.url(pages[0])))
      else PollRound(snap, pages[1..], last')
  }

  /** Rounds until one hits or the rounds before the deadline run out. */
  function PollRounds(rounds: seq<Snapshot>, pages: seq<PageId>, last: map<PageId, string>): Poll {
    if rounds == [] then Miss(last)
    else match PollRound(rounds[0], pages, last)
      case Hit(f) => Hit(f)
      case Miss(last') => PollRounds(rounds[1..], pages, last')
  }

  /** The distinct non-empty URLs recorded. */
  function NonEmptyUrls(last: map<PageId, string>): set<string> {
    set p | p in last && last[p] != "" :: last[p]
  }

  predicate StrictlySorted(xs: seq<string>) {
    forall i, j :: 0 <= i < j < |xs| ==> Less(xs[i], xs[j])
  }

  /** `r` is what the polling reports for `poll`: the hit, or a timeout whose
      URL list is the recorded non-empty URLs, sorted and distinct. */
  ghost predicate Reports(r: Result<Found>, poll: Poll) {
    match poll
    case Hit(f) => r == Ok(f)
    case Miss(last) =>
      r.Err? && r.error.ScanIdNotFound?
      && StrictlySorted(r.error.seenUrls)
      && (forall u :: u in r.error.seenUrls <==> u in NonEmptyUrls(last))
  }

  /** `u` inserted into the strictly sorted `xs`, unless already there. */
  function InsertSorted(xs: seq<string>, u: string): (r: seq<string>)
    requires StrictlySorted(xs)
    ensures StrictlySorted(r)
    ensures forall x :: x in r <==> x in xs || x == u
  {
    if xs == [] then [u]
    else if u == xs[0] then xs
    else if Less(u, xs[0]) then
      assert forall j :: 0 <= j < |xs| ==> Less(u, xs[j]) by {
        forall j | 0 < j < |xs| ensures Less(u, xs[j]) { LessTransitive(u, xs[0], xs[j]); }
      }
      [u] + xs
    else
      LessTotal(u, xs[0]);
      var rest := InsertSorted(xs[1..], u);
      assert forall x :: x in rest ==> Less(xs[0], x) by {
        forall x | x in rest ensures Less(xs[0], x) {
          if x != u { var j :| 0 <= j < |xs[1..]| && xs[1..][j] == x; assert x == xs[j + 1]; }
        }
      }
      [xs[0]] + rest
  }

  /** `sorted({u for u in last_urls.values() if u})`. */
  method SeenUrls(last: map<PageId, string>) returns (urls: seq<string>)
    ensures StrictlySorted(urls)
    ensures forall u :: u in urls <==> u in NonEmptyUrls(last)
  {
    urls := [];
    var rest := last.Keys;
    while rest != {}
      invariant rest <= last.Keys
      invariant StrictlySorted(urls)
      invariant forall u :: u in urls <==> exists p :: p in last && p !in rest && last[p] == u && u != ""
      decreases rest
    {
      var p :| p in rest;
      if last[p] != "" {
        urls := InsertSorted(urls, last[p]);
      }
      rest := rest - {p};
    }
  }

  lemma HeadIn(xs: seq<string>)
    requires xs != []
    ensures xs[0] in xs
  {
  }

  /** Two strictly sorted lists with the same elements are the same list: the
      timeout report is fully determined by the URLs seen. */
  lemma {:induction false} SortedUnique(xs: seq<string>, ys: seq<string>)
    requires StrictlySorted(xs) && StrictlySorted(ys)
    requires forall u :: u in xs <==> u in ys
    ensures xs == ys
  {
    if xs != [] && ys != [] {
      assert xs[0] in xs && ys[0] in ys;
      if xs[0] != ys[0] {
        assert xs[0] in ys && ys[0] in xs;
        var j :| 0 <= j < |ys| && ys[j] == xs[0];
        var i :| 0 <= i < |xs| && xs[i] == ys[0];
        assert Less(ys[0], xs[0]) && Less(xs[0], ys[0]);
        LessTransitive(xs[0], ys[0], xs[0]);
        LessIrreflexive(xs[0]);
      } else {
        assert xs == [xs[0]] + xs[1..] && ys == [ys[0]] + ys[1..];
        forall u ensures u in xs[1..] <==> u in ys[1..] {
          if u in xs[1..] {
            var i :| 0 <= i < |xs[1..]| && xs[1..][i] == u;
            assert xs[i + 1] == u && Less(xs[0], u);
            LessIrreflexive(u);
            assert u in ys;
          }
          if u in ys[1..] {
            var i :| 0 <= i < |ys[1..]| && ys[1..][i] == u;
            assert ys[i + 1] == u && Less(ys[0], u);
            LessIrreflexive(u);
            assert u in xs;
          }
        }
        SortedUnique(xs[1..], ys[1..]);
        assert xs == [xs[0]] + xs[1..] && ys == [ys[0]] + ys[1..];
      }
    } else if xs != [] {
      HeadIn(xs);
      assert false;
    } else if ys != [] {
      HeadIn(ys);
      assert false;
    }
  }

  /** `_wait_for_scanid`: rounds of polling every candidate page, recording the
      URL of each page before probing it, until one shows a scan id. */
  method WaitForScanId(rounds: seq<Snapshot>, pages: seq<PageId>) returns (r: Result<Found>)
    ensures Reports(r, PollRounds(rounds, pages, map[]))
  {
    var lastUrls: map<PageId, string> := map[];
    for i := 0 to |rounds|
      invariant PollRounds(rounds, pages, map[]) == PollRounds(rounds[i..], pages, lastUrls)
    {
      var snap := rounds[i];
      assert rounds[i..][1..] == rounds[i + 1..];
      for j := 0 to |pages|
        invariant PollRounds(rounds, pages, map[]) ==
          match PollRound(snap, pages[j..], lastUrls)
          case Hit(f) => Hit(f)
          case Miss(last') => PollRounds(rounds[i + 1..], pages, last')
      {
        assert pages[j..][1..] == pages[j + 1..];
        var p := pages[j];
        var url := snap.url(p);
        if url.Some? {
          lastUrls := lastUrls[p := url.value.text];
        }
        var scanId := ExtractScanIdNow(snap, p);
        if scanId.Some? {
          return Ok(Found(scanId.value, url));
        }
      }
    }
    var urls := SeenUrls(lastUrls);
    return Err(ScanIdNotFound(urls));
  }

  // ---------------------------------------------------------------------
  // What one polling round promises

  /** A round hits with the scan id of the first candidate, in candidate
      order, that shows one, and with that candidate's URL. */
  lemma {:induction false} PollRoundFirstHit(snap: Snapshot, pages: seq<PageId>, last: map<PageId, string>)
    returns (k: nat)
    requires PollRound(snap, pages, last).Hit?
    ensures k < |pages| && ScanPage(snap, pages[k]).Some?
    ensures PollRound(snap, pages, last).found == Found(ScanPage(snap, pages[k]).value, snap.url(pages[k]))
    ensures forall j :: 0 <= j < k ==> ScanPage(snap, pages[j]).None?
  {
    if ScanPage(snap, pages[0]).Some? {
      k := 0;
    } else {
      var k' := PollRoundFirstHit(snap, pages[1..], Remember(snap, pages[0], last));
      k := k' + 1;
      forall j | 0 < j < k ensures ScanPage(snap, pages[j]).None? {
        assert pages[j] == pages[1..][j - 1];
      }
    }
  }

  /** A round misses exactly when no candidate shows a scan id, and then it has
      recorded the URL of every candidate whose URL could be read, keeping the
      earlier record of the others. */
  lemma {:induction false} PollRoundMiss(snap: Snapshot, pages: seq<PageId>, last: map<PageId, string>)
    ensures PollRound(snap, pages, last).Miss? <==> forall j :: 0 <= j < |pages| ==> ScanPage(snap, pages[j]).None?
    ensures PollRound(snap, pages, last).Miss? ==>
      var last' := PollRound(snap, pages, last).lastUrls;
      && (forall p :: p in last' <==> p in last || (p in pages && snap.url(p).Some?))
      && (forall p :: p in pages && snap.url(p).Some? ==> last'[p] == snap.url(p).value.text)
      && (forall p :: p in last && !(p in pages && snap.url(p).Some?) ==> last'[p] == last[p])
  {
    if pages != [] {
      PollRoundMiss(snap, pages[1..], Remember(snap, pages[0], last));
      assert forall j :: 1 <= j < |pages| ==> pages[j] == pages[1..][j - 1];
      assert forall p :: p in pages <==> p == pages[0] || p in pages[1..];
    }
  }

  // ---------------------------------------------------------------------
  // The watch loop in `main`

  /** Where the watch loop leaves discovery: settled on the original page, or
      handing a candidate list and the remaining polls to `_wait_for_scanid`. */
  datatype Watch = Settled(result: Result<Found>) | Handoff(candidates: seq<PageId>, from: nat)

  /** The watch loop from poll `i` on: new pages win; otherwise the original
      page is probed directly; when the polls run out, the original page alone
      is handed on with no time left. */
  function WatchFrom(before: seq<PageId>, page: PageId, rounds: seq<Snapshot>, i: nat): (w: Watch)
    requires i <= |rounds|
    ensures w.Handoff? ==> i <= w.from <= |rounds| && w.candidates != []
    decreases |rounds| - i
  {
    if i == |rounds| then Handoff([page], |rounds|)
    else
      var newPages := NewPagesSince(rounds[i].pages, before);
      if newPages != [] then Handoff(Candidates(newPages, page), i)
      else
        var id := ScanPage(rounds[i], page);
        if id.Some? then
          match rounds[i].url(page)
          case None => Settled(Err(UrlUnreadable))
          case Some(u) => Settled(Ok(Found(id.value, Some(u))))
        else WatchFrom(before, page, rounds, i + 1)
  }

  /** How discovery ends, for the reference reading of `main` lines 213-241. */
  ghost predicate Discovers(r: Result<Found>, before: seq<PageId>, page: PageId, rounds: seq<Snapshot>) {
    match WatchFrom(before, page, rounds, 0)
    case Settled(x) => r == x
    case Handoff(cands, k) => Reports(r, PollRounds(rounds[k..], cands, map[]))
  }

  /** `main` lines 213-241: watch for new tabs, probing the original page
      meanwhile; once new tabs appear, poll the candidates with the time left. */
  method DiscoverScanId(before: seq<PageId>, page: PageId, rounds: seq<Snapshot>) returns (r: Result<Found>)
    ensures Discovers(r, before, page, rounds)
  {
    var candidates: seq<PageId> := [page];
    var from := |rounds|;
    var i := 0;
    while i < |rounds|
      invariant i <= |rounds|
      invariant WatchFrom(before, page, rounds, 0) == WatchFrom(before, page, rounds, i)
    {
      var snap := rounds[i];
      var newPages := NewPagesSince(snap.pages, before);
      if newPages != [] {
        candidates, from := Candidates(newPages, page), i;
        break;
      }
      var maybeScanId := ExtractScanIdNow(snap, page);
      if maybeScanId.Some? {
        var url := snap.url(page);
        if url.None? {
          return Err(UrlUnreadable);
        }
        return Ok(Found(maybeScanId.value, url));
      }
      i := i + 1;
    }
    r := WaitForScanId(rounds[from..], candidates);
  }

  /** With no new tab and no scan id on the original page before the deadline,
      discovery fails reporting no URL at all: the wait gets no time. */
  lemma QuietTimeout(before: seq<PageId>, page: PageId, rounds: seq<Snapshot>, r: Result<Found>)
    requires forall i :: 0 <= i < |rounds| ==>
      NewPagesSince(rounds[i].pages, before) == [] && ScanPage(rounds[i], page).None?
    requires Discovers(r, before, page, rounds)
    ensures r == Err(ScanIdNotFound([]))
  {
    WatchQuiet(before, page, rounds, 0);
    assert rounds[|rounds|..] == [];
    var seen := r.error.seenUrls;
    if seen != [] {
      HeadIn(seen);
      assert false;
    }
  }

  lemma {:induction false} WatchQuiet(before: seq<PageId>, page: PageId, rounds: seq<Snapshot>, i: nat)
    requires i <= |rounds|
    requires forall i :: 0 <= i < |rounds| ==>
      NewPagesSince(rounds[i].pages, before) == [] && ScanPage(rounds[i], page).None?
    ensures WatchFrom(before, page, rounds, i) == Handoff([page], |rounds|)
    decreases |rounds| - i
  {
    if i < |rounds| {
      WatchQuiet(before, page, rounds, i + 1);
    }
  }
}
