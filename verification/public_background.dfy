/** The older background script public/background.js. Its classifier
    matches per channel (extensions for the request-header listener,
    content types for the response-header listener) with no custom rule, it
    has no tab check and only a case-sensitive blacklist, every detection
    updates the badge and notifies on its own, a deletion message without
    `previous: false` edits the restore list, and the start-up restore keeps
    private-window entries and leaves the loaded live list in memory.

    The rule table that file imports (components/supported.js of its own
    tree) is not part of this model; the table of src/js/components/
    supported.js stands in for it. The aggregator's state, outcome and
    effect records are reused; the batch field stays untouched. */
module PublicBackground {
  import opened Wrappers
  import opened Text
  import opened Lists
  import opened Rules
  import opened Exchanges
  import Classifier
  import Aggregator
  import Versions

  /** The preferences `urlFilter` reads. `blacklistEntries` is `None` when
      nothing is stored. */
  datatype Prefs = Prefs(
    subtitlePref: bool,
    filePref: bool,
    blacklistPref: bool,
    blacklistEntries: Option<seq<string>>)

  // ---------------------------------------------------------------------
  // urlFilter

  /** The first built-in rule one of whose extensions occurs, after a '.',
      in the lower-cased pathname. */
  function ExtRule(pathname: string): (r: Option<Rule>)
    ensures r.Some? ==> r.value in Supported && Classifier.ExtHit(r.value.ext, Lower(pathname))
    ensures r.None? ==> forall i :: 0 <= i < |Supported| ==> !Classifier.ExtHit(Supported[i].ext, Lower(pathname))
  {
    Find(Supported, (f: Rule) => Classifier.ExtHit(f.ext, Lower(pathname)))
  }

  /** The first built-in rule listing the lower-cased header value. */
  function CtRule(value: string): (r: Option<Rule>)
    ensures r.Some? ==> r.value in Supported && Lower(value) in r.value.ct
    ensures r.None? ==> forall i :: 0 <= i < |Supported| ==> Lower(value) !in Supported[i].ct
  {
    Find(Supported, (f: Rule) => Lower(value) in f.ct)
  }

  /** The verdict: an exchange seen by the request-header listener is
      matched on its pathname only, one seen by the response-header
      listener on its content-type header only. */
  function ChannelVerdict(ex: Exchange): (r: Option<Rule>)
    ensures ex.requestHeaders.Some? ==> r == ExtRule(ex.pathname)
    ensures ex.requestHeaders.None? && ex.responseHeaders.Some? ==>
      match FindHeader(ex.responseHeaders.value, "content-type")
      case None => r.None?
      case Some(h) => r == CtRule(h.value)
    ensures ex.requestHeaders.None? && ex.responseHeaders.None? ==> r.None?
  {
    if ex.requestHeaders.Some? then ExtRule(ex.pathname)
    else if ex.responseHeaders.Some? then
      match FindHeader(ex.responseHeaders.value, "content-type")
      case None => None
      case Some(h) => CtRule(h.value)
    else None
  }

  /** A blacklist entry occurs, with case, in the URL or in the first
      present referring URL. */
  predicate EntryHits(entry: string, ex: Exchange) {
    || Contains(ex.url, entry)
    || Contains(FirstPresent([ex.documentUrl, ex.originUrl, ex.initiator]), entry)
  }

  /** `!blacklistPref || blacklistEntries?.filter(hit).length === 0`: with
      the preference on and no stored list the test reads `undefined === 0`,
      which rejects. */
  function BlacklistPasses(p: Prefs, ex: Exchange): (b: bool)
    ensures b <==> (!p.blacklistPref ||
      (p.blacklistEntries.Some? && forall i :: 0 <= i < |p.blacklistEntries.value| ==>
         !EntryHits(p.blacklistEntries.value[i], ex)))
  {
    if !p.blacklistPref then true
    else match p.blacklistEntries
      case None => false
      case Some(entries) =>
        NoHits(entries, ex);
        |Filter(entries, (e: string) => EntryHits(e, ex))| == 0
  }

  lemma NoHits(entries: seq<string>, ex: Exchange)
    ensures |Filter(entries, (e: string) => EntryHits(e, ex))| == 0 <==>
      forall i :: 0 <= i < |entries| ==> !EntryHits(entries[i], ex)
  {
    var hit := (e: string) => EntryHits(e, ex);
    if forall i :: 0 <= i < |entries| ==> !EntryHits(entries[i], ex) {
      FilterDropsAll(entries, hit);
    }
  }

  /** `urlFilter`: the rule an exchange is accepted under. There is no tab
      check, no size or manifest filter and no custom rule. */
  function UrlFilter(p: Prefs, live: seq<Descriptor>, queue: seq<string>, ex: Exchange): (r: Option<Rule>)
    ensures r.Some? <==>
      && ChannelVerdict(ex).Some?
      && !UrlIsLive(live, ex.url)
      && ex.requestId !in queue
      && (!p.subtitlePref || ChannelVerdict(ex).value.category != Subtitles)
      && (!p.filePref || ChannelVerdict(ex).value.category != Files)
      && BlacklistPasses(p, ex)
    ensures r.Some? ==> r == ChannelVerdict(ex)
    ensures r.Some? ==> r.value in Supported
  {
    var e := ChannelVerdict(ex);
    if && e.Some?
       && !UrlIsLive(live, ex.url)
       && ex.requestId !in queue
       && (!p.subtitlePref || e.value.category != Subtitles)
       && (!p.filePref || e.value.category != Files)
       && BlacklistPasses(p, ex)
    then e
    else None
  }

  /** On the request channel this revision agrees with the current
      extension verdict when no custom rule is configured. */
  lemma RequestChannelIsExtensionVerdict(ex: Exchange)
    requires ex.requestHeaders.Some?
    ensures ChannelVerdict(ex) == Classifier.ExtVerdict(Classifier.OpenPrefs(), ex.pathname)
  {
  }

  /** On the response channel, with a non-empty content type, this
      revision agrees with the current content-type verdict when no custom
      rule is configured: both compare the lowered value exactly. */
  lemma ResponseChannelIsContentTypeVerdict(ex: Exchange)
    requires ex.requestHeaders.None? && ex.responseHeaders.Some?
    requires Classifier.ContentType(ex) != ""
    ensures ChannelVerdict(ex) == Classifier.CtVerdict(Classifier.OpenPrefs(), ex)
  {
    var v := Classifier.ContentType(ex);
    assert FindHeader(ex.responseHeaders.value, "content-type").Some?;
    Classifier.BuiltinCtIsMembership(v);
  }

  /** The channel decides what is looked at: a request-channel verdict
      ignores the headers, a response-channel verdict ignores the
      pathname. */
  lemma ChannelsAreIndependent(ex: Exchange, pathname: string, hs: seq<Header>)
    ensures ex.requestHeaders.Some? ==>
      ChannelVerdict(ex.(requestHeaders := Some(hs))) == ChannelVerdict(ex)
    ensures ex.requestHeaders.None? ==>
      ChannelVerdict(ex.(pathname := pathname)) == ChannelVerdict(ex)
  {
  }

  /** Requests not tied to a tab (`tabId` -1) are accepted like any other,
      where the current revision rejects them. */
  lemma BackgroundRequestsAccepted(p: Prefs, live: seq<Descriptor>, queue: seq<string>, ex: Exchange)
    requires ex.tabId == -1
    ensures UrlFilter(p, live, queue, ex) == UrlFilter(p, live, queue, ex.(tabId := 0))
    ensures Classifier.UrlFilter(Classifier.OpenPrefs(), live, queue, ex).None?
  {
  }

  /** With the blacklist on and no list stored, every exchange is
      rejected. */
  lemma MissingBlacklistRejects(p: Prefs, live: seq<Descriptor>, queue: seq<string>, ex: Exchange)
    requires p.blacklistPref && p.blacklistEntries.None?
    ensures UrlFilter(p, live, queue, ex).None?
  {
  }

  /** A URL already in the live list is not listed again, whatever request
      carries it. */
  lemma ListedUrlRejected(p: Prefs, live: seq<Descriptor>, queue: seq<string>, ex: Exchange, i: nat)
    requires i < |live| && live[i].url == ex.url
    ensures UrlFilter(p, live, queue, ex).None?
  {
  }

  /** Each category switch rejects its own category, and an exchange the
      listener's channel cannot classify is rejected. */
  lemma CategorySwitchesReject(p: Prefs, live: seq<Descriptor>, queue: seq<string>, ex: Exchange)
    ensures ChannelVerdict(ex).None? ==> UrlFilter(p, live, queue, ex).None?
    ensures ChannelVerdict(ex).Some? && p.subtitlePref && ChannelVerdict(ex).value.category == Subtitles ==>
      UrlFilter(p, live, queue, ex).None?
    ensures ChannelVerdict(ex).Some? && p.filePref && ChannelVerdict(ex).value.category == Files ==>
      UrlFilter(p, live, queue, ex).None?
  {
  }

  /** Without a blacklist, a request-channel exchange from a tab that
      carries no content-type header gets the same answer here as from the
      current revision with the same category switches and every other
      filter off. */
  lemma AgreesWithCurrentOnRequests(p: Prefs, live: seq<Descriptor>, queue: seq<string>, ex: Exchange)
    requires !p.blacklistPref
    requires ex.requestHeaders.Some? && ex.tabId != -1
    requires Classifier.ContentType(ex) == ""
    ensures UrlFilter(p, live, queue, ex) ==
      Classifier.UrlFilter(Classifier.OpenPrefs().(subtitlePref := p.subtitlePref, filePref := p.filePref), live, queue, ex)
  {
    var q := Classifier.OpenPrefs().(subtitlePref := p.subtitlePref, filePref := p.filePref);
    RequestChannelIsExtensionVerdict(ex);
    assert Classifier.ExtVerdict(q, ex.pathname) == Classifier.ExtVerdict(Classifier.OpenPrefs(), ex.pathname);
    assert Classifier.Verdict(q, ex) == ChannelVerdict(ex);
  }

  /** The blacklist is case-sensitive: an entry that differs from the URL
      only in case does not reject it. */
  lemma BlacklistIsCaseSensitive(p: Prefs, live: seq<Descriptor>, queue: seq<string>, ex: Exchange)
    requires p.blacklistPref && p.blacklistEntries == Some(["CDN"])
    requires ex.url == "https://cdn.example/a.m3u8"
    requires ex.documentUrl == "" && ex.originUrl == "" && ex.initiator == ""
    ensures BlacklistPasses(p, ex)
  {
    assert FirstPresent([ex.documentUrl, ex.originUrl, ex.initiator]) == "";
    UrlLacksUpperCdn(ex.url);
  }

  lemma UrlLacksUpperCdn(url: string)
    requires url == "https://cdn.example/a.m3u8"
    ensures !Contains(url, "CDN")
  {
    assert 'C' !in url;
    if Contains(url, "CDN") {
      ContainsChars(url, "CDN", 'C');
    }
  }

  // ---------------------------------------------------------------------
  // File names

  /** The name of a detection: the MSS cut, then the text after the last
      '/', written as the source's three-way conditional on
      `+urlPath.lastIndexOf("/")`. */
  function Filename(pathname: string): (r: string)
  {
    var u := Aggregator.NamePath(pathname);
    var k := LastIndexOf(u, "/");
    if k != 0 then JsSlice(u, k + 1, |u|)
    else if |u| > 0 && u[0] == '/' then JsSlice(u, 1, |u|)
    else u
  }

  /** The three branches agree with the current revision's single slice. */
  lemma FilenameAsCurrent(pathname: string)
    ensures Filename(pathname) == Aggregator.DeriveFilename(pathname)
    ensures '/' !in Filename(pathname)
  {
    var u := Aggregator.NamePath(pathname);
    LastIndexOfChar(u, '/');
    var k := LastIndexOf(u, "/");
    assert k == -1 || (0 <= k < |u| && u[k] == '/');
    if k == -1 {
      assert JsSlice(u, 0, |u|) == u[0..];
    }
  }

  // ---------------------------------------------------------------------
  // addURL

  datatype Config = Config(filter: Prefs, notifDetectPref: bool, notifPref: bool, cleanupPref: bool)

  predicate NotificationsOn(c: Config) {
    !c.notifDetectPref && !c.notifPref
  }

  /** The stored record: every header of the listener that fired is kept. */
  function Describe(ex: Exchange, rule: Rule, filename: string, tab: Option<TabInfo>): (d: Descriptor)
    ensures d.requestId == ex.requestId && d.url == ex.url && d.tabId == ex.tabId && d.timeStamp == ex.timeStamp
    ensures d.typeName == rule.typeName && d.category == rule.category
    ensures d.filename == filename && d.hostname == ex.hostname
    ensures d.headers == ObservedHeaders(ex).GetOr([])
    ensures d.tab == tab.GetOr(NoTab)
  {
    Descriptor(ex.requestId, ex.url, rule.typeName, rule.category, filename, ex.hostname,
      ObservedHeaders(ex).GetOr([]), tab.GetOr(NoTab),
      ex.documentUrl, ex.originUrl, ex.initiator, ex.tabId, ex.timeStamp)
  }

  /** `urlFilter` followed by `addURL`, one detection at a time: the entry
      is stored and persisted, the badge shows the live count, the id leaves
      the queue again, and a notification names this detection. */
  function Observe(c: Config, s: Aggregator.State, ex: Exchange, tab: Option<TabInfo>): (o: Aggregator.Outcome)
    ensures UrlFilter(c.filter, s.live, s.queue, ex).None? ==> o == Aggregator.Outcome(s, [])
    ensures UrlFilter(c.filter, s.live, s.queue, ex).Some? ==>
      var rule := UrlFilter(c.filter, s.live, s.queue, ex).value;
      var name := Filename(ex.pathname);
      && o.state.live == s.live + [Describe(ex, rule, name, tab)]
      && o.state.savedLive == o.state.live
      && o.state.queue == s.queue
      && o.state.restore == s.restore && o.state.batch == s.batch
      && |o.effects| >= 1
      && o.effects[0] == Aggregator.SetBadge(Aggregator.Count(|s.live| + 1))
      && (NotificationsOn(c) <==> |o.effects| == 2)
      && (NotificationsOn(c) ==> o.effects[1] == Aggregator.Notify(Aggregator.Detected(rule.typeName, name)))
  {
    match UrlFilter(c.filter, s.live, s.queue, ex)
    case None => Aggregator.Outcome(s, [])
    case Some(rule) =>
      var name := Filename(ex.pathname);
      var queued := s.queue + [ex.requestId];
      var live := s.live + [Describe(ex, rule, name, tab)];
      var queue := Aggregator.RemoveIds(queued, [ex.requestId]);
      Aggregator.QueueRestored(s.queue, ex.requestId);
      var notes := if NotificationsOn(c) then [Aggregator.Notify(Aggregator.Detected(rule.typeName, name))] else [];
      Aggregator.Outcome(s.(live := live, savedLive := live, queue := queue),
                         [Aggregator.SetBadge(Aggregator.Count(|live|))] + notes)
  }

  /** Storing keeps URLs unique and leaves an empty queue empty. */
  lemma ObserveKeepsUrlsUnique(c: Config, s: Aggregator.State, ex: Exchange, tab: Option<TabInfo>)
    requires UrlsUnique(s.live)
    ensures UrlsUnique(Observe(c, s, ex, tab).state.live)
    ensures s.queue == [] ==> Observe(c, s, ex, tab).state.queue == []
  {
    if UrlFilter(c.filter, s.live, s.queue, ex).Some? {
      var rule := UrlFilter(c.filter, s.live, s.queue, ex).value;
      AppendKeysUnique(s.live, Describe(ex, rule, Filename(ex.pathname), tab), (d: Descriptor) => d.url);
    }
  }

  /** An exchange is accepted exactly when observing it lists one more
      entry; that entry carries its URL, so any later exchange for the same
      URL is rejected. */
  lemma AcceptedIsListed(c: Config, s: Aggregator.State, ex: Exchange, tab: Option<TabInfo>, again: Exchange)
    requires again.url == ex.url
    ensures UrlFilter(c.filter, s.live, s.queue, ex).Some? <==> |Observe(c, s, ex, tab).state.live| == |s.live| + 1
    ensures UrlFilter(c.filter, s.live, s.queue, ex).Some? ==>
      var o := Observe(c, s, ex, tab);
      && UrlIsLive(o.state.live, ex.url)
      && UrlFilter(c.filter, o.state.live, o.state.queue, again).None?
  {
    var o := Observe(c, s, ex, tab);
    if UrlFilter(c.filter, s.live, s.queue, ex).Some? {
      assert o.state.live[|s.live|].url == ex.url;
      ListedUrlRejected(c.filter, o.state.live, o.state.queue, again, |s.live|);
    }
  }

  /** Two detections in a row: two badge updates and, with notifications
      on, two notifications, one per detection. */
  lemma NoBatching(c: Config, s: Aggregator.State, e1: Exchange, t1: Option<TabInfo>, e2: Exchange, t2: Option<TabInfo>)
    requires NotificationsOn(c)
    requires UrlFilter(c.filter, s.live, s.queue, e1).Some?
    requires UrlFilter(c.filter, Observe(c, s, e1, t1).state.live, Observe(c, s, e1, t1).state.queue, e2).Some?
    ensures var o1 := Observe(c, s, e1, t1);
      var o2 := Observe(c, o1.state, e2, t2);
      && o1.effects == [Aggregator.SetBadge(Aggregator.Count(|s.live| + 1)),
                        Aggregator.Notify(Aggregator.Detected(UrlFilter(c.filter, s.live, s.queue, e1).value.typeName,
                                                              Filename(e1.pathname)))]
      && |o2.effects| == 2
      && o2.effects[0] == Aggregator.SetBadge(Aggregator.Count(|s.live| + 2))
  {
    var o1 := Observe(c, s, e1, t1);
    assert |o1.state.live| == |s.live| + 1;
    var o2 := Observe(c, o1.state, e2, t2);
    assert |o2.state.live| == |o1.state.live| + 1;
  }

  // ---------------------------------------------------------------------
  // deleteURL

  /** `deleteURL`: only a message whose `previous` is `false` edits the live
      list (and the badge); an absent flag edits the restore list. Both
      lists are persisted. */
  function Delete(s: Aggregator.State, ids: seq<string>, previous: Option<bool>): (o: Aggregator.Outcome)
    ensures o == Aggregator.Delete(s, ids, previous != Some(false))
  {
    if previous == Some(false) then
      var live := Filter(s.live, (d: Descriptor) => d.requestId !in ids);
      Aggregator.Outcome(s.(live := live, savedLive := live), [Aggregator.SetBadge(Aggregator.BadgeFor(|live|))])
    else
      Aggregator.Outcome(s.(restore := Filter(s.restore, (d: Descriptor) => d.requestId !in ids), savedLive := s.live), [])
  }

  /** A message without the flag deletes from the restore list here; the
      current revision deletes it from the live list. */
  lemma MissingFlagTargetsRestore(s: Aggregator.State, ids: seq<string>)
    ensures Delete(s, ids, None).state.live == s.live
    ensures Delete(s, ids, None).state.restore == Aggregator.WithoutIds(s.restore, ids)
    ensures Delete(s, ids, None).effects == []
    ensures Aggregator.Delete(s, ids, false).state.live == Aggregator.WithoutIds(s.live, ids)
  {
  }

  // ---------------------------------------------------------------------
  // Start-up

  /** Start-up: after a major update (the version test of Versions) storage
      is cleared and both lists read back empty; otherwise the previous
      session's live entries are appended to the restore list, stale ones
      dropped when clean-up is on, and private-window entries are kept. Only
      storage is emptied: the live list in memory still holds the loaded
      entries. */
  function Startup(c: Config, stored: Option<string>, manifest: string, previous: Aggregator.State, now: int): (o: Aggregator.Outcome)
    ensures Versions.NeedsReset(stored, manifest) ==> o.state.live == [] && o.state.restore == []
    ensures !Versions.NeedsReset(stored, manifest) ==> o.state.live == previous.savedLive
    ensures forall d :: d in o.state.restore <==>
      && !Versions.NeedsReset(stored, manifest)
      && (d in previous.restore || d in previous.savedLive)
      && (c.cleanupPref ==> Aggregator.Fresh(now, d))
    ensures o.state.savedLive == [] && o.state.queue == [] && o.state.batch == []
    ensures o.effects == [Aggregator.SetBadge(Aggregator.Blank)]
  {
    var read := if Versions.NeedsReset(stored, manifest) then Aggregator.State([], [], [], [], []) else previous;
    var merged := if |read.savedLive| > 0 then read.restore + read.savedLive else read.restore;
    assert forall d :: d in merged <==> d in read.restore || d in read.savedLive;
    var restore :=
      if |merged| > 0 && c.cleanupPref then Filter(merged, (d: Descriptor) => Aggregator.Fresh(now, d))
      else merged;
    Aggregator.Outcome(Aggregator.State(read.savedLive, restore, [], [], []), [Aggregator.SetBadge(Aggregator.Blank)])
  }

  /** Versions compare as text: an update from 1.2 to 2.0 forgets both
      lists, while one from 9.0 to 10.0 keeps the previous session. */
  lemma MajorUpdateForgetsLists(c: Config, previous: Aggregator.State, now: int)
    ensures Startup(c, Some("1.2"), "2.0", previous, now).state.live == []
    ensures Startup(c, Some("1.2"), "2.0", previous, now).state.restore == []
    ensures Startup(c, Some("9.0"), "10.0", previous, now).state.live == previous.savedLive
  {
    Versions.TextualComparison();
  }

  /** An entry of the previous session, still fresh, is listed twice after
      start-up: in the live list and in the restore list. A private-window
      entry is among them, where the current revision drops it. */
  lemma PreviousEntryListedTwice(c: Config, cur: Aggregator.Config, version: string, previous: Aggregator.State, now: int, d: Descriptor)
    requires version != ""
    requires d in previous.savedLive && Aggregator.Fresh(now, d)
    requires d.tab.incognito == Some(true)
    ensures d in Startup(c, Some(version), version, previous, now).state.live
    ensures d in Startup(c, Some(version), version, previous, now).state.restore
    ensures d !in Aggregator.Startup(cur, previous, now).state.restore
  {
    Versions.SameVersionKept(version);
  }
}
