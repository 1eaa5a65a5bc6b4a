/** The oldest background script, background.js. It detects by the text
    after the last '.' of the whole URL (request-header listener) or by an
    exact content type (response-header listener), against two fixed
    lists; it derives the file name from the URL text; every detection is
    stored at once, and the queue of request ids in flight is emptied in
    the same call. Deletion, the version test and the start-up restore
    follow.

    The model is sequential: each `addURL` runs to completion. `saved` is
    the persisted copy of the live list. */
module LegacyBackground {
  import opened Wrappers
  import opened Text
  import opened Lists
  import opened Exchanges
  import Rules
  import Aggregator
  import Versions

  const Extensions: seq<string> := ["m3u8", "mpd", "f4m", "ism", "vtt", "srt", "ttml", "ttml2", "dfxp"]

  const ContentTypes: seq<string> := [
    "application/x-mpegurl",
    "application/vnd.apple.mpegurl",
    "application/dash+xml",
    "application/f4m",
    "text/vtt",
    "application/x-subrip",
    "application/ttml+xml",
    "application/ttaf+xml"
  ]

  /** A stored detection: the exchange's fields spread into the record
      (`requestHeaders` among them), plus the observed headers, the file
      name, the extension, the host and the time of detection. `restore` is
      a flag the popup tests; this script never sets it. */
  datatype Entry = Entry(
    requestId: string,
    url: string,
    filename: string,
    ext: string,
    hostname: string,
    tabId: int,
    timestamp: int,
    requestHeaders: Option<seq<Header>>,
    headers: Option<seq<Header>>,
    restore: bool)

  // ---------------------------------------------------------------------
  // Detection

  /** `getExtension`: the text after the last '.', cut at its last '/' and
      then at its last '?', lower-cased. */
  function GetExtension(href: string): (r: string)
    ensures '.' !in r && IsLower(r) && |r| <= |href|
  {
    var c := BeforeLast(BeforeLast(AfterLast(href, '.'), '/'), '?');
    assert forall k :: 0 <= k < |c| ==> c[k] in AfterLast(href, '.');
    LowerIsLower(c);
    Lower(c)
  }

  /** For a URL "P.E" whose last part E holds no '.', '/' or '?', the
      extension is E lower-cased, and a query "?Q" without those characters
      after it changes nothing. */
  lemma ExtensionOfSimpleHref(p: string, e: string, q: string)
    requires '.' !in e && '/' !in e && '?' !in e
    requires '.' !in q && '/' !in q && '?' !in q
    ensures GetExtension(p + "." + e) == Lower(e)
    ensures GetExtension(p + "." + e + "?" + q) == Lower(e)
  {
    ExtensionOf(p, e);
    ExtensionWithQuery(p, e, q);
  }

  lemma ExtensionOf(p: string, e: string)
    requires '.' !in e && '/' !in e && '?' !in e
    ensures GetExtension(p + "." + e) == Lower(e)
  {
    AfterLastAt(p, e, '.');
  }

  lemma ExtensionWithQuery(p: string, e: string, q: string)
    requires '.' !in e && '/' !in e && '?' !in e
    requires '.' !in q && '/' !in q && '?' !in q
    ensures GetExtension(p + "." + e + "?" + q) == Lower(e)
  {
    var a := e + ['?'] + q;
    var href := p + "." + e + "?" + q;
    Regroup(p, e, q);
    assert '.' !in a by {
      assert '.' !in e + ['?'];
    }
    assert '/' !in a by {
      assert '/' !in e + ['?'];
    }
    AfterLastAt(p, a, '.');
    BeforeLastAt(e, q, '?');
    ExtensionFromParts(href, a, e);
  }

  lemma Regroup(p: string, e: string, q: string)
    ensures p + "." + e + "?" + q == p + ['.'] + (e + ['?'] + q)
  {
    var x := p + ['.'];
    assert p + "." == x;
    assert x + e + ['?'] + q == x + (e + ['?'] + q);
  }

  /** The extension read from the parts `AfterLast` and `BeforeLast` find. */
  lemma ExtensionFromParts(href: string, a: string, e: string)
    requires AfterLast(href, '.') == a && '/' !in a && BeforeLast(a, '?') == e
    ensures GetExtension(href) == Lower(e)
  {
  }

  /** `filterExtension`: the extension is one of the nine listed. */
  predicate ExtensionAccepted(href: string) {
    GetExtension(href) in Extensions
  }

  /** `filterContentType`: the first content-type header, lower-cased, is
      exactly one of the eight listed. */
  function ContentTypeAccepted(hs: seq<Header>): (b: bool)
    ensures b <==> exists h :: (h in hs && Lower(h.name) == "content-type" && Lower(h.value) in ContentTypes &&
      FindHeader(hs, "content-type") == Some(h))
  {
    match FindHeader(hs, "content-type")
    case None => false
    case Some(h) => Lower(h.value) in ContentTypes
  }

  /** Which listener fired decides the test: the request-header listener
      tests the extension, the response-header listener the content type. */
  predicate Detected(ex: Exchange) {
    if ex.requestHeaders.Some? then ExtensionAccepted(ex.url)
    else ex.responseHeaders.Some? && ContentTypeAccepted(ex.responseHeaders.value)
  }

  /** "…/video.M3U8?token=abc" is detected on the request channel. */
  lemma PlaylistDetected(ex: Exchange, dir: string)
    requires ex.requestHeaders.Some?
    requires ex.url == dir + "/video" + "." + "M3U8" + "?" + "token=abc"
    ensures Detected(ex)
  {
    assert GetExtension(ex.url) == Lower("M3U8") by {
      ExtensionWithQuery(dir + "/video", "M3U8", "token=abc");
    }
    assert Lower("M3U8") == "m3u8";
    assert Extensions[0] == "m3u8";
  }

  /** Every listed content type belongs to a built-in rule of the current
      table with the same kind of resource, but the current table knows
      content types this list lacks. */
  lemma ContentTypesAgainstCurrent()
    ensures forall k :: 0 <= k < |ContentTypes| ==>
      exists i :: 0 <= i < 8 && ContentTypes[k] in Rules.Supported[i].ct
    ensures "audio/vnd.apple.mpegurl" in Rules.Supported[Rules.HlsIndex].ct
    ensures "audio/vnd.apple.mpegurl" !in ContentTypes
  {
    assert ContentTypes[0] in Rules.Supported[0].ct;
    assert ContentTypes[1] in Rules.Supported[0].ct;
    assert ContentTypes[2] in Rules.Supported[1].ct;
    assert ContentTypes[3] in Rules.Supported[2].ct;
    assert ContentTypes[4] in Rules.Supported[4].ct;
    assert ContentTypes[5] in Rules.Supported[5].ct;
    assert ContentTypes[6] in Rules.Supported[6].ct;
    assert ContentTypes[7] in Rules.Supported[7].ct;
  }

  // ---------------------------------------------------------------------
  // File names

  /** The file name `addURL` derives from the URL text. Without ".ism": the
      text after the last '/' up to the last '.' (`lastIndexOf(".") ||
      lastIndexOf("?")`, where only a '.' at index 0 defers to '?', and -1
      is a negative slice end), then cut at its first '?'. With ".ism": the
      text after the last '/' before the last ".ism", up to the last '.'. */
  function Filename(href: string): (r: string)
    ensures !Contains(href, ".ism") ==> '?' !in r
  {
    if IndexOf(href, ".ism") == -1 then
      var dot := LastIndexOf(href, ".");
      var end := if dot != 0 then dot else LastIndexOf(href, "?");
      var f := JsSlice(href, LastIndexOf(href, "/") + 1, end);
      var q := IndexOf(f, "?");
      IndexOfChar(f, '?');
      JsSlice(f, 0, if q == -1 then |f| else q)
    else
      JsSlice(href, LastIndexOfFrom(href, "/", LastIndexOf(href, ".ism")) + 1, LastIndexOf(href, "."))
  }

  /** "…/N.E" with N and E free of '/', '.' and '?' is named N. */
  lemma NameOfSimpleHref(p: string, n: string, e: string)
    requires '/' !in n && '.' !in n && '?' !in n
    requires '/' !in e && '.' !in e && '?' !in e
    requires !Contains(p + "/" + n + "." + e, ".ism")
    ensures Filename(p + "/" + n + "." + e) == n
  {
    var href := p + "/" + n + "." + e;
    var tail := n + "." + e;
    assert href == p + ['/'] + tail;
    assert '/' !in tail;
    LastIndexOfCharAt(p, tail, '/');
    assert href == (p + "/" + n) + ['.'] + e;
    LastIndexOfCharAt(p + "/" + n, e, '.');
    var f := JsSlice(href, |p| + 1, |p| + 1 + |n|);
    assert f == n;
    IndexOfChar(n, '?');
  }

  /** A Smooth Streaming URL "…/S.ism/T" with no '/' in S and no '.' in T
      is named S. */
  lemma NameOfIsmHref(p: string, s: string, t: string)
    requires '/' !in s && '.' !in t
    ensures Filename(p + "/" + s + ".ism" + t) == s
  {
    var href := p + "/" + s + ".ism" + t;
    var k := |p| + 1 + |s|;
    assert href[k..k + 4] == ".ism";
    assert ContainsAt(href, ".ism", k);
    IsmIsLast(href, k, t);
    LastIndexOfIs(href, ".ism", k);
    LastIndexOfIs(href, ".", k);
    assert ContainsAt(href, "/", |p|) by {
      assert href[|p|..|p| + 1] == "/";
    }
    assert forall j :: |p| < j < k ==> href[j] == s[j - |p| - 1];
    LastIndexAtOrBeforeIs(href, "/", k, |p|);
    assert href[|p| + 1..k] == s;
  }

  lemma IsmIsLast(href: string, k: int, t: string)
    requires 0 <= k && k + 4 + |t| == |href| && href[k..k + 4] == ".ism" && href[k + 4..] == t
    requires '.' !in t
    ensures forall j :: k < j < |href| ==> href[j] != '.'
  {
    forall j | k < j < |href| ensures href[j] != '.' {
      if j < k + 4 {
        assert href[j] == ".ism"[j - k];
      } else {
        assert href[j] == t[j - k - 4];
      }
    }
  }

  /** The `||` slip: a URL with no '.' at all ends its name one character
      early, because -1 is a truthy slice end. */
  lemma DotlessHrefLosesLastCharacter(p: string, n: string)
    requires '.' !in p && '/' !in n && '.' !in n && '?' !in n && |n| > 0
    ensures Filename(p + "/" + n) == n[..|n| - 1]
  {
    var href := p + "/" + n;
    assert href == p + ['/'] + n;
    assert '.' !in href;
    LastIndexOfChar(href, '.');
    LastIndexOfCharAt(p, n, '/');
    if Contains(href, ".ism") {
      ContainsChars(href, ".ism", '.');
    }
    var f := JsSlice(href, |p| + 1, -1);
    assert f == href[|p| + 1..|href| - 1];
    assert f == n[..|n| - 1];
    IndexOfChar(f, '?');
  }

  // ---------------------------------------------------------------------
  // addURL

  datatype Effect = Notify(text: string) | SetBadge(badge: Aggregator.Badge)

  datatype State = State(live: seq<Entry>, restore: seq<Entry>, queue: seq<string>, saved: seq<Entry>)

  datatype Outcome = Outcome(state: State, effects: seq<Effect>)

  predicate UrlLive(live: seq<Entry>, url: string) {
    exists i :: 0 <= i < |live| && live[i].url == url
  }

  /** The record stored for a detection at time `now`. */
  function EntryFor(ex: Exchange, now: int): (d: Entry)
    ensures d.requestId == ex.requestId && d.url == ex.url && d.tabId == ex.tabId && d.timestamp == now
    ensures d.filename == Filename(ex.url) && d.ext == GetExtension(ex.url) && d.hostname == ex.hostname
    ensures d.requestHeaders == ex.requestHeaders && d.headers == ObservedHeaders(ex) && !d.restore
  {
    Entry(ex.requestId, ex.url, Filename(ex.url), GetExtension(ex.url), ex.hostname, ex.tabId, now,
          ex.requestHeaders, ObservedHeaders(ex), false)
  }

  /** `addURL`: a request id not in flight with a URL not yet stored is
      stored; its id is queued and removed again in the same call; a
      notification names "filename.ext" when `notifPref` is `false`; and,
      the queue being empty, the badge shows the live count and the live
      list is persisted. */
  function AddUrl(s: State, ex: Exchange, now: int, notifPref: Option<bool>): (o: Outcome)
    ensures ex.requestId in s.queue || UrlLive(s.live, ex.url) ==> o == Outcome(s, [])
    ensures ex.requestId !in s.queue && !UrlLive(s.live, ex.url) ==>
      var d := EntryFor(ex, now);
      var note := if notifPref == Some(false) then [Notify(d.filename + "." + d.ext)] else [];
      && o.state.live == s.live + [d]
      && o.state.queue == s.queue && o.state.restore == s.restore
      && (s.queue == [] ==> (o.state.saved == o.state.live &&
            o.effects == note + [SetBadge(Aggregator.Count(|s.live| + 1))]))
      && (s.queue != [] ==> o.state.saved == s.saved && o.effects == note)
  {
    if ex.requestId in s.queue || UrlLive(s.live, ex.url) then Outcome(s, [])
    else
      var queued := s.queue + [ex.requestId];
      var d := EntryFor(ex, now);
      var live := s.live + [d];
      var queue := Aggregator.RemoveIds(queued, [ex.requestId]);
      Aggregator.QueueRestored(s.queue, ex.requestId);
      var note := if notifPref == Some(false) then [Notify(d.filename + "." + d.ext)] else [];
      if queue == [] then Outcome(State(live, s.restore, queue, live), note + [SetBadge(Aggregator.Count(|live|))])
      else Outcome(State(live, s.restore, queue, s.saved), note)
  }

  /** A listener firing: the detection test, then `addURL`. */
  function Observe(s: State, ex: Exchange, now: int, notifPref: Option<bool>): (o: Outcome)
    ensures !Detected(ex) ==> o == Outcome(s, [])
    ensures Detected(ex) ==> o == AddUrl(s, ex, now, notifPref)
  {
    if Detected(ex) then AddUrl(s, ex, now, notifPref) else Outcome(s, [])
  }

  /** The queue is empty between calls and no URL is stored twice; each
      detection therefore updates the badge and persists the list. */
  predicate Valid(s: State) {
    s.queue == [] && forall i, j :: 0 <= i < j < |s.live| ==> s.live[i].url != s.live[j].url
  }

  lemma ObserveKeepsValid(s: State, ex: Exchange, now: int, notifPref: Option<bool>)
    requires Valid(s)
    ensures Valid(Observe(s, ex, now, notifPref).state)
    ensures var o := Observe(s, ex, now, notifPref);
      o.state.live != s.live ==> (o.state.saved == o.state.live && |o.effects| > 0 &&
        o.effects[|o.effects| - 1] == SetBadge(Aggregator.Count(|o.state.live|)))
  {
    var o := Observe(s, ex, now, notifPref);
    if Detected(ex) && ex.requestId !in s.queue && !UrlLive(s.live, ex.url) {
      AppendKeysUnique(s.live, EntryFor(ex, now), (d: Entry) => d.url);
      assert o.state.live == s.live + [EntryFor(ex, now)];
    }
  }

  // ---------------------------------------------------------------------
  // deleteURL

  function WithoutIds(list: seq<Entry>, ids: seq<string>): (r: seq<Entry>)
    ensures forall d :: d in r <==> d in list && d.requestId !in ids
  {
    Filter(list, (d: Entry) => d.requestId !in ids)
  }

  /** `deleteURL`: only `previous === false` edits the live list and
      updates the badge; an absent flag edits the restore list. */
  function Delete(s: State, ids: seq<string>, previous: Option<bool>): (o: Outcome)
    ensures previous == Some(false) ==>
      && o.state.live == WithoutIds(s.live, ids) && o.state.restore == s.restore
      && o.effects == [SetBadge(Aggregator.BadgeFor(|o.state.live|))]
    ensures previous != Some(false) ==>
      o.state.live == s.live && o.state.restore == WithoutIds(s.restore, ids) && o.effects == []
    ensures o.state.saved == o.state.live && o.state.queue == s.queue
  {
    if previous == Some(false) then
      var live := WithoutIds(s.live, ids);
      Outcome(s.(live := live, saved := live), [SetBadge(Aggregator.BadgeFor(|live|))])
    else
      Outcome(s.(restore := WithoutIds(s.restore, ids), saved := s.live), [])
  }

  lemma DeleteKeepsValid(s: State, ids: seq<string>, previous: Option<bool>)
    requires Valid(s)
    ensures Valid(Delete(s, ids, previous).state)
  {
    if previous == Some(false) {
      FilterKeysUnique(s.live, (d: Entry) => d.requestId !in ids, (d: Entry) => d.url);
    }
  }

  // ---------------------------------------------------------------------
  // setup

  /** The stored values `setup` reads, before anything is cleared. */
  datatype Snapshot = Snapshot(
    version: Option<string>,
    headersPref: Option<bool>,
    notifPref: Option<bool>,
    urlStorageRestore: Option<seq<Entry>>,
    urlStorage: Option<seq<Entry>>)

  datatype Setup = Setup(cleared: bool, headersPref: bool, notifPref: bool, state: State)

  /** `options.headersPref || true`, as written: the stored choice is
      replaced by `true` whatever it was. */
  function HeadersPrefAsWritten(stored: Option<bool>): (b: bool)
    ensures b
  {
    stored == Some(true) || true
  }

  /** The evidently intended default: `true` when nothing is stored, the
      stored choice otherwise. */
  function HeadersPrefDefault(stored: Option<bool>): (b: bool)
    ensures stored.Some? ==> b == stored.value
    ensures stored.None? ==> b
  {
    stored.GetOr(true)
  }

  /** A user who switched headers off finds them on again after the next
      start as written; the corrected default keeps the choice. */
  lemma HeadersPrefOverwritten()
    ensures HeadersPrefAsWritten(Some(false)) != false
    ensures HeadersPrefDefault(Some(false)) == false
  {
  }

  /** `setup`: the version test, the defaults written back, and the
      restore merge: the stored restore list followed by the stored live
      list, after which storage holds no live list. The merge reads the
      values taken before clearing. As written, the header preference
      comes out on whatever was stored. */
  function StartUp(snap: Snapshot, manifest: string): (o: Setup)
    ensures o.cleared == Versions.NeedsReset(snap.version, manifest)
    ensures o.headersPref
    ensures o.notifPref <==> snap.notifPref == Some(true)
    ensures o.state.restore == snap.urlStorageRestore.GetOr([]) + snap.urlStorage.GetOr([])
    ensures o.state.live == [] && o.state.saved == [] && o.state.queue == []
  {
    var restore := if snap.urlStorageRestore.Some? && |snap.urlStorageRestore.value| > 0
      then snap.urlStorageRestore.value else [];
    var merged := if snap.urlStorage.Some? && |snap.urlStorage.value| > 0
      then restore + snap.urlStorage.value else restore;
    Setup(Versions.NeedsReset(snap.version, manifest), HeadersPrefAsWritten(snap.headersPref),
          snap.notifPref == Some(true), State([], merged, [], []))
  }

  /** `setup` with the evidently intended header default: everything as
      written except that a stored header preference is kept. */
  function StartUpCorrected(snap: Snapshot, manifest: string): (o: Setup)
    ensures o.headersPref == HeadersPrefDefault(snap.headersPref)
    ensures o == StartUp(snap, manifest).(headersPref := o.headersPref)
    ensures snap.headersPref == Some(false) ==> o.headersPref != StartUp(snap, manifest).headersPref
  {
    StartUp(snap, manifest).(headersPref := HeadersPrefDefault(snap.headersPref))
  }

  /** Clearing storage does not lose the previous session: the restore
      list is the same whether or not the version test fires. */
  lemma ClearingKeepsRestore(snap: Snapshot, m1: string, m2: string)
    ensures StartUp(snap, m1).state == StartUp(snap, m2).state
  {
  }

  /** The start-up state is valid. */
  lemma StartUpIsValid(snap: Snapshot, manifest: string)
    ensures Valid(StartUp(snap, manifest).state)
  {
  }
}
