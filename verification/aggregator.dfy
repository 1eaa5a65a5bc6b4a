/** The detection aggregator of src/js/background.js: `addURL` turns an
    accepted exchange into a stored descriptor (or, for files with direct
    auto-download enabled, into a download request), bursts of additions are
    flushed once the 100 ms debounce timer fires, `deleteURL` removes
    entries by request id, and the startup block moves the previous
    session's entries into the restore list.

    The timer is an event: `Flush` is what happens when no addition arrived
    for 100 ms. A flush is pending exactly while the batch is non-empty,
    and the timer's closure belongs to the last addition, which is the
    batch's last entry. Storage writes are modelled by `savedLive`, the
    persisted copy of the live list. */
module Aggregator {
  import opened Wrappers
  import opened Text
  import opened Lists
  import opened Rules
  import opened Exchanges
  import opened Classifier

  // ---------------------------------------------------------------------
  // File names

  /** The MSS workaround: a pathname containing ".ism/manifest" is cut at
      its last '/', so that the name comes from the ".ism" segment. */
  function NamePath(pathname: string): (r: string)
    ensures !Contains(Lower(pathname), ".ism/manifest") ==> r == pathname
    ensures Contains(Lower(pathname), ".ism/manifest") ==> r == JsSlice(pathname, 0, LastIndexOf(pathname, "/"))
  {
    if Contains(Lower(pathname), ".ism/manifest") then JsSlice(pathname, 0, LastIndexOf(pathname, "/"))
    else pathname
  }

  /** The text after the last '/' of the (possibly cut) pathname; both
      branches of the source's conditional slice there. */
  function DeriveFilename(pathname: string): (r: string)
    ensures '/' !in r
    ensures var u := NamePath(pathname);
      |r| <= |u| && r == u[|u| - |r|..] && (|r| == |u| || u[|u| - |r| - 1] == '/')
  {
    var u := NamePath(pathname);
    LastIndexOfChar(u, '/');
    assert "/" == ['/'];
    var k := LastIndexOf(u, "/");
    assert k == -1 ==> u[k + 1..] == u;
    u[k + 1..]
  }

  /** An ordinary pathname is named by its last segment. */
  lemma FilenameIsLastSegment(dir: string, name: string)
    requires '/' !in name
    requires !Contains(Lower(dir + "/" + name), ".ism/manifest")
    ensures DeriveFilename(dir + "/" + name) == name
  {
    var u := dir + "/" + name;
    assert u == dir + ['/'] + name;
    LastIndexOfCharAt(dir, name, '/');
    assert u[|dir| + 1..] == name;
  }

  /** A Smooth Streaming manifest "…/name.ism/manifest" is named after its
      ".ism" segment rather than "manifest". */
  lemma IsmNamedBySegment(dir: string, segment: string, tail: string)
    requires '/' !in segment && '/' !in tail
    requires Contains(Lower(dir + "/" + segment + "/" + tail), ".ism/manifest")
    ensures DeriveFilename(dir + "/" + segment + "/" + tail) == segment
  {
    var p := dir + "/" + segment + "/" + tail;
    var head := dir + "/" + segment;
    assert p == head + ['/'] + tail;
    LastIndexOfCharAt(head, tail, '/');
    assert NamePath(p) == head by {
      assert p[..|head|] == head;
    }
    assert head == dir + ['/'] + segment;
    LastIndexOfCharAt(dir, segment, '/');
    assert head[|dir| + 1..] == segment;
  }

  // ---------------------------------------------------------------------
  // Records and effects

  /** The headers a stored descriptor keeps. */
  const KeptNames: seq<string> := ["user-agent", "referer", "cookie", "set-cookie", "content-length"]

  function KeptHeaders(hs: seq<Header>): (r: seq<Header>)
    ensures forall h :: h in r <==> h in hs && Lower(h.name) in KeptNames
  {
    Filter(hs, (h: Header) => Lower(h.name) in KeptNames)
  }

  /** The descriptor stored for an accepted exchange. */
  function Describe(ex: Exchange, rule: Rule, filename: string, tab: Option<TabInfo>): (d: Descriptor)
    ensures d.requestId == ex.requestId && d.url == ex.url && d.tabId == ex.tabId && d.timeStamp == ex.timeStamp
    ensures d.typeName == rule.typeName && d.category == rule.category
    ensures d.filename == filename && d.hostname == ex.hostname
    ensures d.headers == KeptHeaders(ObservedHeaders(ex).GetOr([]))
    ensures d.tab == tab.GetOr(NoTab)
  {
    Descriptor(ex.requestId, ex.url, rule.typeName, rule.category, filename, ex.hostname,
      KeptHeaders(ObservedHeaders(ex).GetOr([])), tab.GetOr(NoTab),
      ex.documentUrl, ex.originUrl, ex.initiator, ex.tabId, ex.timeStamp)
  }

  /** What a direct download hands to the browser: Chromium gets only the
      name and URL, Firefox also the referer headers and the private-window
      flag. */
  datatype DownloadRequest =
    | Plain(filename: string, url: string)
    | WithHeaders(filename: string, url: string, headers: seq<Header>, incognito: bool)

  datatype Badge = Blank | Count(n: nat)

  datatype Notification =
    | Detected(typeName: string, filename: string)
    | DetectedMany(filenames: seq<string>)

  datatype Effect =
    | StartDownload(request: DownloadRequest)
    | SetBadge(badge: Badge)
    | Notify(notification: Notification)

  /** The user's settings the aggregator reads. `chromium` is the browser
      test `getURL("").startsWith("chrome-extension://")`. */
  datatype Config = Config(
    filter: Prefs,
    downloadDirectPref: bool,
    autoDownloadPref: bool,
    notifDetectPref: bool,
    notifPref: bool,
    cleanupPref: bool,
    chromium: bool)

  /** One pending entry of the debounced batch. */
  datatype BatchEntry = BatchEntry(requestId: string, filename: string, typeName: string)

  datatype State = State(
    live: seq<Descriptor>,
    restore: seq<Descriptor>,
    queue: seq<string>,
    batch: seq<BatchEntry>,
    savedLive: seq<Descriptor>)

  datatype Outcome = Outcome(state: State, effects: seq<Effect>)

  // ---------------------------------------------------------------------
  // addURL

  /** Files and custom detections are downloaded at once when both download
      preferences are set. */
  predicate AutoDownloads(c: Config, category: Category) {
    (category == Files || category == Custom) && c.downloadDirectPref && c.autoDownloadPref
  }

  /** The download: "<tab title or host>/<file name>" with the characters
      `?%*:|"<>` replaced by '_'. */
  function DownloadFor(c: Config, ex: Exchange, tab: Option<TabInfo>, filename: string): (r: DownloadRequest)
    ensures r.filename == SanitizeName((if tab.Some? then tab.value.title else ex.hostname) + "/" + filename)
    ensures r.url == ex.url
    ensures c.chromium <==> r.Plain?
    ensures r.WithHeaders? ==>
      (forall h :: h in r.headers <==> h in ObservedHeaders(ex).GetOr([]) && Lower(h.name) == "referer") &&
      r.incognito == (tab.Some? && tab.value.incognito == Some(true))
  {
    var folder := if tab.Some? then tab.value.title else ex.hostname;
    var name := SanitizeName(folder + "/" + filename);
    if c.chromium then Plain(name, ex.url)
    else WithHeaders(name, ex.url,
      Filter(ObservedHeaders(ex).GetOr([]), (h: Header) => Lower(h.name) == "referer"),
      tab.Some? && tab.value.incognito == Some(true))
  }

  /** `urlFilter` followed by `addURL`: an accepted exchange joins the queue
      and is either downloaded straight away or stored and batched. */
  function Observe(c: Config, s: State, ex: Exchange, tab: Option<TabInfo>): (o: Outcome)
    ensures UrlFilter(c.filter, s.live, s.queue, ex).None? ==> o == Outcome(s, [])
    ensures UrlFilter(c.filter, s.live, s.queue, ex).Some? ==>
      var rule := UrlFilter(c.filter, s.live, s.queue, ex).value;
      var name := DeriveFilename(ex.pathname);
      && o.state.queue == s.queue + [ex.requestId]
      && o.state.restore == s.restore && o.state.savedLive == s.savedLive
      && (AutoDownloads(c, rule.category) ==>
            o.state.live == s.live && o.state.batch == s.batch &&
            o.effects == [StartDownload(DownloadFor(c, ex, tab, name))])
      && (!AutoDownloads(c, rule.category) ==>
            o.state.live == s.live + [Describe(ex, rule, name, tab)] &&
            o.state.batch == s.batch + [BatchEntry(ex.requestId, name, rule.typeName)] &&
            o.effects == [])
  {
    match UrlFilter(c.filter, s.live, s.queue, ex)
    case None => Outcome(s, [])
    case Some(rule) =>
      var name := DeriveFilename(ex.pathname);
      var queue := s.queue + [ex.requestId];
      if AutoDownloads(c, rule.category) then
        Outcome(s.(queue := queue), [StartDownload(DownloadFor(c, ex, tab, name))])
      else
        Outcome(s.(live := s.live + [Describe(ex, rule, name, tab)],
                   queue := queue,
                   batch := s.batch + [BatchEntry(ex.requestId, name, rule.typeName)]), [])
  }

  // ---------------------------------------------------------------------
  // The debounced flush

  function BatchIds(batch: seq<BatchEntry>): (r: seq<string>)
    ensures |r| == |batch| && forall i :: 0 <= i < |batch| ==> r[i] == batch[i].requestId
  {
    Map(batch, (e: BatchEntry) => e.requestId)
  }

  /** Removing the flushed request ids from the queue, as evidently intended:
      exactly the batched ids leave, the rest keep their order. */
  function RemoveIds(queue: seq<string>, ids: seq<string>): (r: seq<string>)
    ensures forall x :: x in r <==> x in queue && x !in ids
    ensures |r| <= |queue|
  {
    Filter(queue, (x: string) => x !in ids)
  }

  /** Pushing an id that was not queued and removing it again gives back
      the queue, order included. */
  lemma QueueRestored(queue: seq<string>, id: string)
    requires id !in queue
    ensures RemoveIds(queue + [id], [id]) == queue
  {
    var keep := (x: string) => x !in [id];
    FilterConcat(queue, [id], keep);
    FilterKeepsAll(queue, keep);
    assert Filter([id], keep) == [];
  }

  /** One notification for a burst: the list of names for several
      detections, the type and name for one. */
  function NotificationFor(batch: seq<BatchEntry>): (n: Notification)
    requires |batch| > 0
    ensures |batch| > 1 <==> n.DetectedMany?
    ensures n.DetectedMany? ==>
      (|n.filenames| == |batch| && forall i :: 0 <= i < |batch| ==> n.filenames[i] == batch[i].filename)
    ensures n.Detected? ==> n.typeName == batch[0].typeName && n.filename == batch[0].filename
  {
    if |batch| > 1 then DetectedMany(Map(batch, (e: BatchEntry) => e.filename))
    else Detected(Last(batch).typeName, Last(batch).filename)
  }

  predicate NotificationsOn(c: Config) {
    !c.notifDetectPref && !c.notifPref
  }

  /** The timer callback: persist the live list, show its size, clean up
      the queue, notify once, and start a new batch. With no batch there is
      no timer and nothing happens. The queue clean-up is the one the source
      writes (`SpliceAll`), which keeps only a prefix of the queue; see
      `FlushCorrected` for the evidently intended one. */
  function Flush(c: Config, s: State): (o: Outcome)
    ensures s.batch == [] ==> o == Outcome(s, [])
    ensures s.batch != [] ==>
      && o.state.batch == []
      && o.state.live == s.live && o.state.restore == s.restore
      && o.state.savedLive == s.live
      && o.state.queue <= s.queue
      && (|s.batch| >= |s.queue| ==> o.state.queue == [])
      && |o.effects| >= 1 && o.effects[0] == SetBadge(Count(|s.live|))
      && (NotificationsOn(c) ==> o.effects == [SetBadge(Count(|s.live|)), Notify(NotificationFor(s.batch))])
      && (!NotificationsOn(c) ==> o.effects == [SetBadge(Count(|s.live|))])
  {
    if s.batch == [] then Outcome(s, [])
    else
      var notes := if NotificationsOn(c) then [Notify(NotificationFor(s.batch))] else [];
      var queue := SpliceAll(s.queue, BatchIds(s.batch));
      assert |s.batch| >= |s.queue| ==> queue == [] by {
        if |s.batch| >= |s.queue| { SpliceAllEmpties(s.queue, BatchIds(s.batch)); }
      }
      Outcome(s.(savedLive := s.live, queue := queue, batch := []),
              [SetBadge(Count(|s.live|))] + notes)
  }

  /** The flush with the queue clean-up evidently intended: exactly the
      batched ids leave the queue. Everything else is the flush's. */
  function FlushCorrected(c: Config, s: State): (o: Outcome)
    ensures s.batch == [] ==> o == Outcome(s, [])
    ensures s.batch != [] ==>
      && o.effects == Flush(c, s).effects
      && o.state == Flush(c, s).state.(queue := o.state.queue)
      && forall x :: x in o.state.queue <==> x in s.queue && x !in BatchIds(s.batch)
  {
    if s.batch == [] then Outcome(s, [])
    else
      var f := Flush(c, s);
      Outcome(f.state.(queue := RemoveIds(s.queue, BatchIds(s.batch))), f.effects)
  }

  // ---------------------------------------------------------------------
  // The flush's queue clean-up as written

  /** `queue.indexOf(id, 1)`: the search starts at index 1. */
  function IndexFromOne(queue: seq<string>, id: string, from: nat): (r: int)
    ensures r == -1 || (from <= r < |queue| && queue[r] == id)
    ensures r == -1 ==> forall j :: from <= j < |queue| ==> queue[j] != id
    ensures r != -1 ==> forall j :: from <= j < r ==> queue[j] != id
    decreases |queue| - from
  {
    if from >= |queue| then -1
    else if queue[from] == id then from
    else IndexFromOne(queue, id, from + 1)
  }

  /** `queue.splice(start)`: everything from `start` (negative counts from
      the end) to the end is removed. */
  function SpliceFrom(queue: seq<string>, start: int): (r: seq<string>)
    ensures r <= queue
    ensures 0 <= start <= |queue| ==> |r| == start
    ensures start < 0 && |queue| > 0 ==> |r| < |queue|
  {
    queue[..SliceBound(start, |queue|)]
  }

  /** One step of `forEach((id) => queue.splice(queue.indexOf(id, 1)))`. */
  function SpliceOut(queue: seq<string>, id: string): (r: seq<string>)
    ensures r <= queue
    ensures |queue| > 0 ==> |r| < |queue|
    ensures |r| > 0 ==> id !in r[1..]
  {
    SpliceFrom(queue, IndexFromOne(queue, id, 1))
  }

  /** The flush's clean-up of the queue as the source writes it. */
  function SpliceAll(queue: seq<string>, ids: seq<string>): (r: seq<string>)
    ensures r <= queue
    decreases |ids|
  {
    if ids == [] then queue else SpliceAll(SpliceOut(queue, ids[0]), ids[1..])
  }

  /** The misplaced argument in action: with the queue [a, d], where d was
      an auto-downloaded request (queued but never batched), flushing the
      batch [a] removes d and keeps a. A later observation of d's request
      id is then accepted again. The corrected removal keeps d. */
  lemma SpliceDropsTheWrongId(a: string, d: string)
    requires a != d
    ensures SpliceAll([a, d], [a]) == [a]
    ensures RemoveIds([a, d], [a]) == [d]
  {
    assert IndexFromOne([a, d], a, 1) == -1;
    assert SpliceOut([a, d], a) == [a];
    var r := RemoveIds([a, d], [a]);
    assert Filter([d], (x: string) => x !in [a]) == [d];
    assert r == [d];
  }

  /** Each splice shortens a non-empty queue, so as many ids as queued
      entries always empty it: in the ordinary case, where the queue holds
      exactly the batch, the code as written does what the correction does. */
  lemma {:induction false} SpliceAllEmpties(queue: seq<string>, ids: seq<string>)
    requires |ids| >= |queue|
    ensures SpliceAll(queue, ids) == []
    decreases |ids|
  {
    if ids != [] {
      var q := SpliceOut(queue, ids[0]);
      assert |q| < |queue| || queue == [];
      SpliceAllEmpties(q, ids[1..]);
    }
  }

  lemma RemoveIdsEmpties(queue: seq<string>, ids: seq<string>)
    requires forall x :: x in queue ==> x in ids
    ensures RemoveIds(queue, ids) == []
  {
    FilterDropsAll(queue, (x: string) => x !in ids);
  }

  lemma SpliceAgreesOnExactBatch(queue: seq<string>, ids: seq<string>)
    requires |ids| == |queue| && forall x :: x in queue ==> x in ids
    ensures SpliceAll(queue, ids) == RemoveIds(queue, ids) == []
  {
    SpliceAllEmpties(queue, ids);
    RemoveIdsEmpties(queue, ids);
  }

  // ---------------------------------------------------------------------
  // deleteURL

  function WithoutIds(list: seq<Descriptor>, ids: seq<string>): (r: seq<Descriptor>)
    ensures forall d :: d in r <==> d in list && d.requestId !in ids
  {
    Filter(list, (d: Descriptor) => d.requestId !in ids)
  }

  /** The badge text after a deletion: blank at zero. */
  function BadgeFor(n: nat): (b: Badge)
    ensures b == Blank <==> n == 0
    ensures b.Count? ==> b.n == n
  {
    if n == 0 then Blank else Count(n)
  }

  /** `deleteURL`: the message's ids leave the live list, or the restore
      list when the message's `previous` flag is `true`. Both lists are
      persisted; only a live deletion updates the badge. */
  function Delete(s: State, ids: seq<string>, previous: bool): (o: Outcome)
    ensures !previous ==>
      && o.state.live == WithoutIds(s.live, ids) && o.state.restore == s.restore
      && o.effects == [SetBadge(BadgeFor(|o.state.live|))]
    ensures previous ==>
      o.state.live == s.live && o.state.restore == WithoutIds(s.restore, ids) && o.effects == []
    ensures o.state.savedLive == o.state.live
    ensures o.state.queue == s.queue && o.state.batch == s.batch
  {
    if !previous then
      var live := WithoutIds(s.live, ids);
      Outcome(s.(live := live, savedLive := live), [SetBadge(BadgeFor(|live|))])
    else
      Outcome(s.(restore := WithoutIds(s.restore, ids), savedLive := s.live), [])
  }

  /** Two deletions in a row remove the union of their ids. */
  lemma DeleteTwice(s: State, a: seq<string>, b: seq<string>, previous: bool)
    ensures Delete(Delete(s, a, previous).state, b, previous).state == Delete(s, a + b, previous).state
  {
    var p := (d: Descriptor) => d.requestId !in a;
    var q := (d: Descriptor) => d.requestId !in b;
    var pq := (d: Descriptor) => d.requestId !in a + b;
    FilterFilter(s.live, p, q, pq);
    FilterFilter(s.restore, p, q, pq);
  }

  /** Deleting the same ids again changes nothing. */
  lemma DeleteIdempotent(s: State, ids: seq<string>, previous: bool)
    ensures Delete(Delete(s, ids, previous).state, ids, previous).state == Delete(s, ids, previous).state
  {
    var p := (d: Descriptor) => d.requestId !in ids;
    FilterIdempotent(s.live, p);
    FilterIdempotent(s.restore, p);
  }

  /** Deletion from a list built in two parts deletes from each part in
      place: the survivors keep the order they were detected in. */
  lemma DeleteKeepsOrder(a: seq<Descriptor>, b: seq<Descriptor>, ids: seq<string>)
    ensures WithoutIds(a + b, ids) == WithoutIds(a, ids) + WithoutIds(b, ids)
  {
    FilterConcat(a, b, (d: Descriptor) => d.requestId !in ids);
  }

  // ---------------------------------------------------------------------
  // Startup and reset

  const WeekMs := 604800000

  predicate Fresh(now: int, d: Descriptor) {
    now - d.timeStamp < WeekMs
  }

  /** The restore list built at startup from the previous session's
      persisted lists: live entries are appended, stale ones dropped when
      clean-up is on, private-window ones always. */
  function RestoreOnStartup(cleanup: bool, now: int, saved: seq<Descriptor>, restore: seq<Descriptor>): (r: seq<Descriptor>)
    ensures forall d :: d in r <==>
      (d in restore || d in saved) && d.tab.incognito != Some(true) && (cleanup ==> Fresh(now, d))
  {
    var merged := if |saved| > 0 then restore + saved else restore;
    assert forall d :: d in merged <==> d in restore || d in saved;
    if |merged| > 0 then
      var aged := if cleanup then Filter(merged, (d: Descriptor) => Fresh(now, d)) else merged;
      Filter(aged, (d: Descriptor) => d.tab.incognito != Some(true))
    else
      assert saved == [] && restore == [];
      merged
  }

  /** The startup block: a new process whose live list is always empty; the
      badge is cleared by `init`. */
  function Startup(c: Config, previous: State, now: int): (o: Outcome)
    ensures o.state.live == [] && o.state.savedLive == [] && o.state.queue == [] && o.state.batch == []
    ensures o.state.restore == RestoreOnStartup(c.cleanupPref, now, previous.savedLive, previous.restore)
    ensures o.effects == [SetBadge(Blank)]
  {
    Outcome(State([], RestoreOnStartup(c.cleanupPref, now, previous.savedLive, previous.restore), [], [], []),
            [SetBadge(Blank)])
  }

  /** Without clean-up, restored entries keep their order: the old restore
      list first, then the previous session's live list. */
  lemma RestoreOrder(now: int, saved: seq<Descriptor>, restore: seq<Descriptor>)
    ensures var keep := (d: Descriptor) => d.tab.incognito != Some(true);
      RestoreOnStartup(false, now, saved, restore) == Filter(restore, keep) + Filter(saved, keep)
  {
    var keep := (d: Descriptor) => d.tab.incognito != Some(true);
    if |saved| > 0 {
      FilterConcat(restore, saved, keep);
    } else {
      assert saved == [];
      if |restore| == 0 {
        assert restore == [];
      }
    }
  }

  /** The options page's reset: storage and both lists are emptied. The
      queue and a pending batch are untouched. */
  function Reset(s: State): (o: Outcome)
    ensures o.state.live == [] && o.state.restore == [] && o.state.savedLive == []
    ensures o.state.queue == s.queue && o.state.batch == s.batch
    ensures o.effects == [SetBadge(Blank)]
  {
    Outcome(s.(live := [], restore := [], savedLive := []), [SetBadge(Blank)])
  }

  // ---------------------------------------------------------------------
  // Invariant

  predicate IdsUnique(queue: seq<string>) {
    KeysUnique(queue, (x: string) => x)
  }

  /** No URL is stored twice, no request id is queued twice, and every
      batched id is still queued. */
  predicate Valid(s: State) {
    && UrlsUnique(s.live)
    && IdsUnique(s.queue)
    && forall i :: 0 <= i < |s.batch| ==> s.batch[i].requestId in s.queue
  }

  lemma ObserveKeepsValid(c: Config, s: State, ex: Exchange, tab: Option<TabInfo>)
    requires Valid(s)
    ensures Valid(Observe(c, s, ex, tab).state)
  {
    var r := UrlFilter(c.filter, s.live, s.queue, ex);
    if r.Some? {
      var o := Observe(c, s, ex, tab).state;
      ObserveKeepsIdsUnique(c, s, ex, tab);
      ObserveKeepsBatchQueued(c, s, ex, tab);
      ObserveKeepsUrlsUnique(c, s, ex, tab);
      assert o.queue == s.queue + [ex.requestId];
    }
  }

  /** An accepted request id is new to the queue. */
  lemma ObserveKeepsIdsUnique(c: Config, s: State, ex: Exchange, tab: Option<TabInfo>)
    requires IdsUnique(s.queue)
    ensures IdsUnique(Observe(c, s, ex, tab).state.queue)
  {
    if UrlFilter(c.filter, s.live, s.queue, ex).Some? {
      assert ex.requestId !in s.queue;
      AppendKeysUnique(s.queue, ex.requestId, (x: string) => x);
    }
  }

  /** Every batched id is still queued: both lists grow by the same id. */
  lemma ObserveKeepsBatchQueued(c: Config, s: State, ex: Exchange, tab: Option<TabInfo>)
    requires forall i :: 0 <= i < |s.batch| ==> s.batch[i].requestId in s.queue
    ensures var o := Observe(c, s, ex, tab).state;
      forall i :: 0 <= i < |o.batch| ==> o.batch[i].requestId in o.queue
  {
    var r := UrlFilter(c.filter, s.live, s.queue, ex);
    if r.Some? {
      var name := DeriveFilename(ex.pathname);
      BatchStaysQueued(s.batch, s.queue, BatchEntry(ex.requestId, name, r.value.typeName), ex.requestId);
    }
  }

  /** Queuing an id keeps every batched id queued, also after the entry for
      that id joins the batch. */
  lemma BatchStaysQueued(batch: seq<BatchEntry>, queue: seq<string>, e: BatchEntry, id: string)
    requires forall i :: 0 <= i < |batch| ==> batch[i].requestId in queue
    requires e.requestId == id
    ensures forall i :: 0 <= i < |batch| ==> batch[i].requestId in queue + [id]
    ensures var b := batch + [e]; forall i :: 0 <= i < |b| ==> b[i].requestId in queue + [id]
  {
    var b := batch + [e];
    forall i | 0 <= i < |b| ensures b[i].requestId in queue + [id] {
      if i < |batch| {
        assert b[i] == batch[i];
      }
    }
  }

  /** A stored descriptor's URL is new to the live list. */
  lemma ObserveKeepsUrlsUnique(c: Config, s: State, ex: Exchange, tab: Option<TabInfo>)
    requires UrlsUnique(s.live)
    ensures UrlsUnique(Observe(c, s, ex, tab).state.live)
  {
    var r := UrlFilter(c.filter, s.live, s.queue, ex);
    if r.Some? && !AutoDownloads(c, r.value.category) {
      var d := Describe(ex, r.value, DeriveFilename(ex.pathname), tab);
      assert Observe(c, s, ex, tab).state.live == s.live + [d];
      assert !UrlIsLive(s.live, d.url);
      AppendKeysUnique(s.live, d, (d: Descriptor) => d.url);
    }
  }

  /** The flush as written keeps the state valid: its queue is a prefix of
      a queue without repeats, and the batch is emptied. */
  lemma FlushKeepsValid(c: Config, s: State)
    requires Valid(s)
    ensures Valid(Flush(c, s).state)
  {
    if s.batch != [] {
      var q := Flush(c, s).state.queue;
      assert forall i :: 0 <= i < |q| ==> q[i] == s.queue[i];
    }
  }

  lemma FlushCorrectedKeepsValid(c: Config, s: State)
    requires Valid(s)
    ensures Valid(FlushCorrected(c, s).state)
  {
    if s.batch != [] {
      FilterKeysUnique(s.queue, (x: string) => x !in BatchIds(s.batch), (x: string) => x);
    }
  }

  /** When the queue holds exactly the batched ids, as it does whenever no
      download was started since the last flush, both clean-ups empty
      it and the two flushes agree. */
  lemma FlushesAgreeWithoutDownloads(c: Config, s: State)
    requires |BatchIds(s.batch)| == |s.queue|
    requires forall x :: x in s.queue ==> x in BatchIds(s.batch)
    ensures Flush(c, s) == FlushCorrected(c, s)
  {
    if s.batch != [] {
      SpliceAgreesOnExactBatch(s.queue, BatchIds(s.batch));
    }
  }

  /** A queued download request behind a batched one: the flush as written
      keeps the flushed id a and drops the download's id d, so a later
      observation of a is rejected and one of d accepted again; the
      corrected flush keeps d only. */
  lemma FlushForgetsDownload(c: Config, s: State, a: string, d: string, e: BatchEntry)
    requires a != d && e.requestId == a
    requires s.queue == [a, d] && s.batch == [e]
    ensures Flush(c, s).state.queue == [a]
    ensures FlushCorrected(c, s).state.queue == [d]
  {
    SpliceDropsTheWrongId(a, d);
    assert BatchIds(s.batch) == [a];
    var r := FlushCorrected(c, s).state.queue;
    assert forall x :: x in r <==> x == d;
    assert RemoveIds([a, d], [a]) == [d];
  }

  lemma DeleteKeepsValid(s: State, ids: seq<string>, previous: bool)
    requires Valid(s)
    ensures Valid(Delete(s, ids, previous).state)
  {
    if !previous {
      FilterKeysUnique(s.live, (d: Descriptor) => d.requestId !in ids, (d: Descriptor) => d.url);
    }
  }

  lemma StartupIsValid(c: Config, previous: State, now: int)
    ensures Valid(Startup(c, previous, now).state)
  {
  }

  // ---------------------------------------------------------------------
  // Acceptance and the queue

  /** An exchange is accepted exactly when observing it queues its request
      id, which was not queued before; an accepted exchange is then either
      listed under its URL or downloaded. */
  lemma AcceptedIsQueued(c: Config, s: State, ex: Exchange, tab: Option<TabInfo>)
    ensures var o := Observe(c, s, ex, tab);
      UrlFilter(c.filter, s.live, s.queue, ex).Some? <==> |o.state.queue| == |s.queue| + 1
    ensures var o := Observe(c, s, ex, tab);
      UrlFilter(c.filter, s.live, s.queue, ex).Some? ==>
        && ex.requestId !in s.queue && ex.requestId in o.state.queue
        && (UrlIsLive(o.state.live, ex.url) || (|o.effects| == 1 && o.effects[0].StartDownload?))
  {
    var o := Observe(c, s, ex, tab);
    var r := UrlFilter(c.filter, s.live, s.queue, ex);
    if r.Some? {
      assert o.state.queue[|s.queue|] == ex.requestId;
      if !AutoDownloads(c, r.value.category) {
        assert o.state.live[|s.live|].url == ex.url;
      }
    }
  }

  /** After an exchange is accepted, its request id is rejected until a
      flush; once it is stored, its URL stays rejected across the flush,
      until the entry is deleted. */
  lemma SecondObservationRejected(c: Config, s: State, ex: Exchange, tab: Option<TabInfo>, again: Exchange)
    requires UrlFilter(c.filter, s.live, s.queue, ex).Some?
    ensures var o := Observe(c, s, ex, tab).state;
      again.requestId == ex.requestId ==> UrlFilter(c.filter, o.live, o.queue, again).None?
    ensures var o := Observe(c, s, ex, tab).state;
      !AutoDownloads(c, UrlFilter(c.filter, s.live, s.queue, ex).value.category) && again.url == ex.url ==>
        && UrlFilter(c.filter, o.live, o.queue, again).None?
        && UrlFilter(c.filter, Flush(c, o).state.live, Flush(c, o).state.queue, again).None?
  {
    var o := Observe(c, s, ex, tab).state;
    AcceptedIsQueued(c, s, ex, tab);
    if again.requestId == ex.requestId {
      QueuedIdRejected(c.filter, o.live, o.queue, again);
    }
    var r := UrlFilter(c.filter, s.live, s.queue, ex);
    if !AutoDownloads(c, r.value.category) && again.url == ex.url {
      assert o.live[|s.live|].url == again.url;
      ListedUrlRejected(c.filter, o.live, o.queue, again, |s.live|);
      ListedUrlRejected(c.filter, Flush(c, o).state.live, Flush(c, o).state.queue, again, |s.live|);
    }
  }

  // ---------------------------------------------------------------------
  // Debouncing

  /** An accepted exchange that is not auto-downloaded is stored and
      batched without any visible effect. */
  lemma ObserveStores(c: Config, s: State, ex: Exchange, tab: Option<TabInfo>)
    requires var r := UrlFilter(c.filter, s.live, s.queue, ex);
      r.Some? && !AutoDownloads(c, r.value.category)
    ensures var o := Observe(c, s, ex, tab);
      && o.effects == []
      && |o.state.live| == |s.live| + 1
      && o.state.batch == s.batch + [BatchEntry(ex.requestId, DeriveFilename(ex.pathname),
                                                UrlFilter(c.filter, s.live, s.queue, ex).value.typeName)]
  {
  }

  /** A burst of two stored detections produces no effect until the quiet
      period, then one badge update and one notification listing both
      names; a second quiet period does nothing. */
  lemma BurstFlushesOnce(c: Config, s: State, e1: Exchange, t1: Option<TabInfo>, e2: Exchange, t2: Option<TabInfo>)
    requires s.batch == []
    requires NotificationsOn(c)
    requires var r1 := UrlFilter(c.filter, s.live, s.queue, e1);
      r1.Some? && !AutoDownloads(c, r1.value.category)
    requires var s1 := Observe(c, s, e1, t1).state;
      var r2 := UrlFilter(c.filter, s1.live, s1.queue, e2);
      r2.Some? && !AutoDownloads(c, r2.value.category)
    ensures var o1 := Observe(c, s, e1, t1);
      var o2 := Observe(c, o1.state, e2, t2);
      var f := Flush(c, o2.state);
      && o1.effects == [] && o2.effects == []
      && f.effects == [SetBadge(Count(|s.live| + 2)),
                       Notify(DetectedMany([DeriveFilename(e1.pathname), DeriveFilename(e2.pathname)]))]
      && Flush(c, f.state) == Outcome(f.state, [])
  {
    var o1 := Observe(c, s, e1, t1);
    ObserveStores(c, s, e1, t1);
    var o2 := Observe(c, o1.state, e2, t2);
    ObserveStores(c, o1.state, e2, t2);
    FlushTwo(c, o2.state);
  }

  lemma FlushTwo(c: Config, s: State)
    requires |s.batch| == 2 && NotificationsOn(c)
    ensures Flush(c, s).effects ==
      [SetBadge(Count(|s.live|)), Notify(DetectedMany([s.batch[0].filename, s.batch[1].filename]))]
    ensures Flush(c, Flush(c, s).state) == Outcome(Flush(c, s).state, [])
  {
    var n := NotificationFor(s.batch);
    assert n.filenames == [s.batch[0].filename, s.batch[1].filename];
  }
}
