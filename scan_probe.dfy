/** Reading the scan id out of one browser page (`_extract_scanid_now`): every
    frame of the page, a fixed list of CSS selectors, and three ways of reading
    an element's value, tried in that nesting order. The browser is seen
    through one snapshot of what these probes would answer. */
module ScanIdProbe {
  import opened Outcomes
  import opened Text
  import opened Urls

  /** The identity (`id(p)`) of an open browser page. */
  type PageId = nat

  /** The identity of a frame inside a page. */
  type FrameId = nat

  /** The three value readers, in the order they are tried: the `value`
      attribute, the live input value, and `el.value` evaluated in the page. */
  datatype Getter = Attribute | InputValue | Evaluated

  /** What a reader gave back: it raised, or it returned a string or `None`. */
  datatype Probe = Raised | Returned(value: Option<string>)

  /** What the browser answers during one poll. */
  datatype Snapshot = Snapshot(
    pages: seq<PageId>,                         // the context's open pages
    frames: PageId -> seq<FrameId>,             // a page's frames, main frame first
    count: (FrameId, string) -> Option<nat>,    // matches of a selector; None: raised
    read: (FrameId, string, Getter) -> Probe,   // a reader applied to the first match
    url: PageId -> Option<Url>)                 // a page's URL; None: raised

  /** The selectors tried in every frame, most specific first. */
  const Selectors: seq<string> := [
    "input#scanid",
    "input[id=\"scanid\" i]",
    "#scanid",
    "[id=\"scanid\" i]",
    "input[name=\"scanid\" i]"
  ]

  const Getters: seq<Getter> := [Attribute, InputValue, Evaluated]

  /** A selector is read only when counting its matches succeeded with a
      non-zero count. */
  predicate Present(snap: Snapshot, f: FrameId, sel: string) {
    snap.count(f, sel).Some? && snap.count(f, sel).value != 0
  }

  /** A reader's answer is taken when it is a string that is not blank; the
      scan id is that string stripped. */
  function Accept(p: Probe): (r: Option<string>)
    ensures r.Some? ==> r.value != "" && Strip(r.value) == r.value
  {
    if p.Returned? && p.value.Some? && p.value.value != "" && Strip(p.value.value) != "" then
      StripIdempotent(p.value.value);
      Some(Strip(p.value.value))
    else None
  }

  /** The readers `gs`, in order, on the first match of `sel` in frame `f`. */
  function ScanGetters(snap: Snapshot, f: FrameId, sel: string, gs: seq<Getter>): (r: Option<string>)
    ensures r.Some? ==> r.value != "" && Strip(r.value) == r.value
  {
    if gs == [] then None
    else match Accept(snap.read(f, sel, gs[0]))
      case Some(v) => Some(v)
      case None => ScanGetters(snap, f, sel, gs[1..])
  }

  /** The selectors `sels`, in order, in frame `f`. */
  function ScanSelectors(snap: Snapshot, f: FrameId, sels: seq<string>): (r: Option<string>)
    ensures r.Some? ==> r.value != "" && Strip(r.value) == r.value
  {
    if sels == [] then None
    else
      var here := if Present(snap, f, sels[0]) then ScanGetters(snap, f, sels[0], Getters) else None;
      if here.Some? then here else ScanSelectors(snap, f, sels[1..])
  }

  /** The frames `fs`, in order. */
  function ScanFrames(snap: Snapshot, fs: seq<FrameId>): (r: Option<string>)
    ensures r.Some? ==> r.value != "" && Strip(r.value) == r.value
  {
    if fs == [] then None
    else
      var here := ScanSelectors(snap, fs[0], Selectors);
      if here.Some? then here else ScanFrames(snap, fs[1..])
  }

  /** The scan id the page shows now, if any. */
  function ScanPage(snap: Snapshot, page: PageId): (r: Option<string>)
    ensures r.Some? ==> r.value != "" && Strip(r.value) == r.value
  {
    ScanFrames(snap, snap.frames(page))
  }

  /** `_extract_scanid_now`: nested loops over frames, selectors and readers,
      returning at the first non-blank value. */
  method ExtractScanIdNow(snap: Snapshot, page: PageId) returns (r: Option<string>)
    ensures r == ScanPage(snap, page)
  {
    var frames := snap.frames(page);
    for i := 0 to |frames|
      invariant ScanPage(snap, page) == ScanFrames(snap, frames[i..])
    {
      assert frames[i..][1..] == frames[i + 1..];
      var f := frames[i];
      for j := 0 to |Selectors|
        invariant ScanPage(snap, page) ==
          (var rest := ScanSelectors(snap, f, Selectors[j..]);
           if rest.Some? then rest else ScanFrames(snap, frames[i + 1..]))
      {
        assert Selectors[j..][1..] == Selectors[j + 1..];
        var sel := Selectors[j];
        var n := snap.count(f, sel);
        if n.None? || n.value == 0 {
          continue;
        }
        for k := 0 to |Getters|
          invariant ScanPage(snap, page) ==
            (var got := ScanGetters(snap, f, sel, Getters[k..]);
             if got.Some? then got else
               var rest := ScanSelectors(snap, f, Selectors[j + 1..]);
               if rest.Some? then rest else ScanFrames(snap, frames[i + 1..]))
        {
          assert Getters[k..][1..] == Getters[k + 1..];
          var value := snap.read(f, sel, Getters[k]);
          if value.Returned? && value.value.Some? && value.value.value != "" &&
             Strip(value.value.value) != "" {
            return Some(Strip(value.value.value));
          }
        }
      }
    }
    return None;
  }

  /** One probe of the nested search: a reader on a selector in a frame. */
  datatype Attempt = Attempt(frame: FrameId, selector: string, getter: Getter)

  function GetterAttempts(f: FrameId, sel: string, gs: seq<Getter>): seq<Attempt> {
    if gs == [] then [] else [Attempt(f, sel, gs[0])] + GetterAttempts(f, sel, gs[1..])
  }

  function SelectorAttempts(snap: Snapshot, f: FrameId, sels: seq<string>): seq<Attempt> {
    if sels == [] then []
    else
      var head := if Present(snap, f, sels[0]) then GetterAttempts(f, sels[0], Getters) else [];
      head + SelectorAttempts(snap, f, sels[1..])
  }

  /** Every probe the search may make, flattened in frame, then selector, then
      reader order; selectors whose count is zero or raised are left out. */
  function Attempts(snap: Snapshot, fs: seq<FrameId>): seq<Attempt> {
    if fs == [] then [] else SelectorAttempts(snap, fs[0], Selectors) + Attempts(snap, fs[1..])
  }

  function Outcome(snap: Snapshot, a: Attempt): Option<string> {
    Accept(snap.read(a.frame, a.selector, a.getter))
  }

  /** The outcome of the first probe in `xs` that is accepted. */
  function FirstAccepted(snap: Snapshot, xs: seq<Attempt>): Option<string> {
    if xs == [] then None
    else if Outcome(snap, xs[0]).Some? then Outcome(snap, xs[0])
    else FirstAccepted(snap, xs[1..])
  }

  lemma {:induction false} FirstAcceptedAppend(snap: Snapshot, xs: seq<Attempt>, ys: seq<Attempt>)
    ensures FirstAccepted(snap, xs + ys) ==
      (if FirstAccepted(snap, xs).Some? then FirstAccepted(snap, xs) else FirstAccepted(snap, ys))
  {
    if xs == [] {
      assert xs + ys == ys;
    } else {
      assert (xs + ys)[1..] == xs[1..] + ys;
      FirstAcceptedAppend(snap, xs[1..], ys);
    }
  }

  lemma {:induction false} ScanGettersIsFirstAccepted(snap: Snapshot, f: FrameId, sel: string, gs: seq<Getter>)
    ensures ScanGetters(snap, f, sel, gs) == FirstAccepted(snap, GetterAttempts(f, sel, gs))
  {
    if gs != [] {
      ScanGettersIsFirstAccepted(snap, f, sel, gs[1..]);
    }
  }

  lemma {:induction false} ScanSelectorsIsFirstAccepted(snap: Snapshot, f: FrameId, sels: seq<string>)
    ensures ScanSelectors(snap, f, sels) == FirstAccepted(snap, SelectorAttempts(snap, f, sels))
  {
    if sels != [] {
      var head := if Present(snap, f, sels[0]) then GetterAttempts(f, sels[0], Getters) else [];
      ScanGettersIsFirstAccepted(snap, f, sels[0], Getters);
      ScanSelectorsIsFirstAccepted(snap, f, sels[1..]);
      FirstAcceptedAppend(snap, head, SelectorAttempts(snap, f, sels[1..]));
    }
  }

  /** The nested search is the same as taking the first accepted probe of the
      flattened frame-selector-reader order. */
  lemma {:induction false} ScanFramesIsFirstAccepted(snap: Snapshot, fs: seq<FrameId>)
    ensures ScanFrames(snap, fs) == FirstAccepted(snap, Attempts(snap, fs))
  {
    if fs != [] {
      ScanSelectorsIsFirstAccepted(snap, fs[0], Selectors);
      ScanFramesIsFirstAccepted(snap, fs[1..]);
      FirstAcceptedAppend(snap, SelectorAttempts(snap, fs[0], Selectors), Attempts(snap, fs[1..]));
    }
  }

  /** The value found is the stripped answer of some probe `k`, and no probe
      before `k` gave a non-blank answer. */
  lemma {:induction false} FirstAcceptedAt(snap: Snapshot, xs: seq<Attempt>) returns (k: nat)
    requires FirstAccepted(snap, xs).Some?
    ensures k < |xs| && FirstAccepted(snap, xs) == Outcome(snap, xs[k])
    ensures forall j :: 0 <= j < k ==> Outcome(snap, xs[j]).None?
  {
    if Outcome(snap, xs[0]).Some? {
      k := 0;
    } else {
      var k' := FirstAcceptedAt(snap, xs[1..]);
      k := k' + 1;
      forall j | 0 <= j < k ensures Outcome(snap, xs[j]).None? {
        if j > 0 { assert xs[j] == xs[1..][j - 1]; }
      }
    }
  }

  /** Nothing is found exactly when every probe came back raised, `None` or blank. */
  lemma {:induction false} FirstAcceptedNone(snap: Snapshot, xs: seq<Attempt>)
    ensures FirstAccepted(snap, xs).None? <==> forall j :: 0 <= j < |xs| ==> Outcome(snap, xs[j]).None?
  {
    if xs != [] {
      FirstAcceptedNone(snap, xs[1..]);
      assert forall j :: 1 <= j < |xs| ==> xs[j] == xs[1..][j - 1];
    }
  }
}
