/** popup/popup.js, the popup of the oldest revision, over the entries
    background.js stores (`LegacyBackground.Entry`): the command a click
    copies (`copyURL`), "copy all", "clear list", the delete cross and the
    list a view shows (`createList`). */
module LegacyPopup {
  import opened Wrappers
  import opened Text
  import opened Lists
  import opened Exchanges
  import Commands
  import ListView
  import LegacyBackground

  type Entry = LegacyBackground.Entry

  /** The copy methods this revision's options page offers. */
  datatype Tool = Url | Ffmpeg | Streamlink | YoutubeDl | Hlsdl | User

  /** The same tool among the later revisions' methods, whose per-tool
      header and proxy arguments this revision already writes. */
  function AsMethod(t: Tool): Commands.Method {
    match t
    case Url => Commands.Url
    case Ffmpeg => Commands.Ffmpeg
    case Streamlink => Commands.Streamlink
    case YoutubeDl => Commands.YoutubeDl
    case Hlsdl => Commands.Hlsdl
    case User => Commands.User
  }

  /** The stored options `copyURL` reads. Absent strings are "", and an
      absent switch is false (each is tested with `=== true`);
      `browserUserAgent` is `navigator.userAgent`. */
  datatype Options = Options(
    copyMethod: Option<Tool>,
    userCommand: string,
    customCommands: map<Tool, string>,
    proxyPref: bool,
    proxyCommand: string,
    headersPref: bool,
    streamlinkOutput: string,
    notifPref: bool,
    browserUserAgent: string)

  // ---------------------------------------------------------------------
  // Method choice

  /** The extension/tool pairs the popup refuses. The test is on the file
      extension only, and the URL method is refused too for ".ism" and
      ".vtt" files. */
  predicate Incompatible(ext: string, t: Tool) {
    || (ext == "f4m" && t == Ffmpeg)
    || (ext == "ism" && t != YoutubeDl)
    || (ext == "vtt" && t != YoutubeDl)
    || (ext != "m3u8" && t == Hlsdl)
  }

  function Configured(o: Options): Tool {
    o.copyMethod.GetOr(Url)
  }

  datatype Pick = Pick(tool: Tool, degraded: bool)

  /** The tool used for an entry: the configured one, or the bare URL,
      flagged, for a refused pair or an empty user template. */
  function Resolve(o: Options, ext: string): (p: Pick)
    ensures p.degraded <==> Incompatible(ext, Configured(o)) || (Configured(o) == User && o.userCommand == "")
    ensures p.tool == (if p.degraded then Url else Configured(o))
  {
    var m := Configured(o);
    if Incompatible(ext, m) || (m == User && o.userCommand == "") then Pick(Url, true) else Pick(m, false)
  }

  // ---------------------------------------------------------------------
  // Command construction

  /** The captured request headers: the browser's user agent when none
      was captured, and no referer fallback at all. */
  function HeaderValues(hs: seq<Header>, browserUserAgent: string): Commands.HeaderSet {
    Commands.HeaderSet(Commands.CapturedOr(hs, "user-agent", browserUserAgent),
                       Commands.CookieValue(hs),
                       Commands.CapturedOr(hs, "referer", ""))
  }

  function Base(o: Options, t: Tool): string {
    match t
    case Ffmpeg => "ffmpeg"
    case Streamlink => "streamlink"
    case YoutubeDl => "youtube-dl --no-part --restrict-filenames"
    case Hlsdl => "hlsdl -b"
    case User => o.userCommand
    case Url => ""
  }

  /** A non-empty custom argument string for the tool is appended; no
      switch turns it off. */
  function WithCustom(o: Options, t: Tool, code: string): string {
    if t in o.customCommands && o.customCommands[t] != "" then code + " " + o.customCommands[t] else code
  }

  function WithProxy(o: Options, t: Tool, code: string): string {
    if !(o.proxyPref && o.proxyCommand != "") then code
    else if t == User then ReplaceFirst(code, "%proxy%", o.proxyCommand)
    else code + Commands.ProxyArg(AsMethod(t), o.proxyCommand)
  }

  /** A template's placeholders are filled with `replace` on a string
      pattern, so only the first occurrence of each. */
  function WithHeaders(t: Tool, h: Commands.HeaderSet, code: string): string {
    if t == User then
      ReplaceFirst(ReplaceFirst(ReplaceFirst(code, "%useragent%", h.userAgent), "%cookie%", h.cookie),
                   "%referer%", h.referer)
    else code + Commands.HeaderSuffix(AsMethod(t), h)
  }

  /** An unset streamlink output counts as "file". */
  function StreamlinkOutput(o: Options): string {
    if o.streamlinkOutput == "" then "file" else o.streamlinkOutput
  }

  function Trailer(o: Options, e: Entry, t: Tool, code: string): string {
    match t
    case Ffmpeg => code + " -i " + Commands.Quoted(e.url) + " -c copy " + Commands.Quoted(e.filename + ".ts")
    case Streamlink =>
      code + (if StreamlinkOutput(o) == "file" then " -o " + Commands.Quoted(e.filename + ".ts") else "")
      + " " + Commands.Quoted(e.url) + " best"
    case YoutubeDl => code + " " + Commands.Quoted(e.url)
    case Hlsdl => code + " -o " + Commands.Quoted(e.filename + ".ts") + " " + Commands.Quoted(e.url)
    case User => ReplaceFirst(ReplaceFirst(code, "%url%", e.url), "%filename%", e.filename)
    case Url => code
  }

  /** Building a command throws when the header step reads the request
      headers of an entry that has none: one detected on the response
      channel. */
  predicate Throws(o: Options, e: Entry) {
    Resolve(o, e.ext).tool != Url && o.headersPref && e.requestHeaders.None?
  }

  /** The text copied for one entry, or None when building it throws. */
  function Command(o: Options, e: Entry): (r: Option<string>)
    ensures r.None? <==> Throws(o, e)
    ensures Resolve(o, e.ext).tool == Url ==> r == Some(e.url)
  {
    var t := Resolve(o, e.ext).tool;
    if t == Url then Some(e.url)
    else if o.headersPref && e.requestHeaders.None? then None
    else
      var c := WithProxy(o, t, WithCustom(o, t, Base(o, t)));
      var c' := if o.headersPref then WithHeaders(t, HeaderValues(e.requestHeaders.value, o.browserUserAgent), c) else c;
      Some(Trailer(o, e, t, c'))
  }

  // ---------------------------------------------------------------------
  // copyURL

  datatype Copied = Copied(text: string, filename: string, degraded: bool)

  function CopyOne(o: Options, e: Entry): (r: Option<Copied>)
    ensures r.None? <==> Throws(o, e)
    ensures r.Some? ==> r.value.filename == e.filename + "." + e.ext && r.value.degraded == Resolve(o, e.ext).degraded
  {
    match Command(o, e)
    case None => None
    case Some(text) => Some(Copied(text, e.filename + "." + e.ext, Resolve(o, e.ext).degraded))
  }

  /** Every entry's copy, or None as soon as one of them throws: the
      exception ends the whole batch before the clipboard is written. */
  function CopyEach(o: Options, es: seq<Entry>): (r: Option<seq<Copied>>)
    ensures r.None? <==> exists i :: 0 <= i < |es| && Throws(o, es[i])
    ensures r.Some? ==> |r.value| == |es| && forall i :: 0 <= i < |es| ==> CopyOne(o, es[i]) == Some(r.value[i])
  {
    if es == [] then Some([])
    else
      var rest := CopyEach(o, es[1..]);
      match CopyOne(o, es[0])
      case None => None
      case Some(c) =>
        if rest.None? then
          var i :| 0 <= i < |es[1..]| && Throws(o, es[1..][i]);
          assert Throws(o, es[i + 1]);
          None
        else
          Some([c] + rest.value)
  }

  /** What a copy writes: the texts joined by newlines, the file names
      with their extensions for the notification, whether the incompatible
      message is shown, and whether a notification is shown at all. */
  datatype Clip = Clip(text: string, filenames: seq<string>, degraded: bool, notify: bool)

  /** `copyURL`: the flag is the last entry's, since the loop overwrites
      it for every entry. */
  function CopyUrls(o: Options, es: seq<Entry>): (r: Option<Clip>)
    ensures r.None? <==> exists i :: 0 <= i < |es| && Throws(o, es[i])
    ensures r.Some? ==>
      && |r.value.filenames| == |es|
      && (forall i :: 0 <= i < |es| ==> r.value.filenames[i] == es[i].filename + "." + es[i].ext)
      && (r.value.degraded <==> |es| > 0 && Resolve(o, Last(es).ext).degraded)
      && (r.value.notify <==> !o.notifPref)
  {
    match CopyEach(o, es)
    case None => None
    case Some(cs) =>
      Some(Clip(Join(Map(cs, (c: Copied) => c.text), "\n"),
                Map(cs, (c: Copied) => c.filename),
                |cs| > 0 && Last(cs).degraded,
                !o.notifPref))
  }

  // ---------------------------------------------------------------------
  // Properties of copyURL

  /** Subtitles are copied only through youtube-dl; any other method,
      the bare URL included, is flagged and gives the URL. */
  lemma SubtitlesOnlyThroughYoutubeDl(o: Options, e: Entry)
    requires e.ext == "vtt" || e.ext == "ism"
    ensures Resolve(o, e.ext).degraded <==> Configured(o) != YoutubeDl
    ensures Configured(o) != YoutubeDl ==> CopyOne(o, e) == Some(Copied(e.url, e.filename + "." + e.ext, true))
  {
  }

  /** hlsdl is refused for every extension but "m3u8". */
  lemma HlsdlOnlyForM3u8(o: Options, ext: string)
    requires Configured(o) == Hlsdl
    ensures Resolve(o, ext).degraded <==> ext != "m3u8"
  {
  }

  /** The subtitle rule is inverted between revisions: this popup copies a
      WebVTT file only through youtube-dl, the current one refuses
      youtube-dl for subtitles and copies their URL unflagged. */
  lemma SubtitleRuleInverted(d: Descriptor)
    requires d.category == Rules.Subtitles && d.typeName == "VTT"
    ensures !Incompatible("vtt", YoutubeDl) && Incompatible("vtt", Url)
    ensures Commands.Incompatible(Commands.Current, Commands.YoutubeDl, d)
    ensures !Commands.Incompatible(Commands.Current, Commands.Url, d)
  {
  }

  /** An empty user template falls back to the flagged URL. */
  lemma EmptyTemplateFallsBack(o: Options, e: Entry)
    requires o.copyMethod == Some(User) && o.userCommand == "" && e.ext == "m3u8"
    ensures CopyOne(o, e) == Some(Copied(e.url, e.filename + "." + e.ext, true))
  {
  }

  /** `replace` fills the first of two occurrences. */
  lemma FirstOfTwo(v: string)
    ensures ReplaceFirst("%url% %url%", "%url%", v) == v + " %url%"
  {
    assert ContainsAt("%url% %url%", "%url%", 0);
    assert IndexOf("%url% %url%", "%url%") == 0;
  }

  /** A global replace fills both. */
  lemma BothOfTwo(v: string)
    ensures ReplaceAll("%url% %url%", "%url%", v) == v + " " + v
  {
    assert "%url% %url%" == "%url%" + " %url%";
    ReplaceAllHead("%url%", " %url%", v);
    ReplaceAllSkipPlain(" ", "%url%", "%url%", v);
    assert "%url%" == "%url%" + [];
    ReplaceAllHead("%url%", [], v);
  }

  /** Text whose only '%' signs are in its last six characters holds no
      "%filename%". */
  lemma NoFilenamePlaceholder(url: string, f: string)
    requires '%' !in url
    ensures ReplaceFirst(url + " %url%", "%filename%", f) == url + " %url%"
  {
    var once := url + " %url%";
    forall i | 0 <= i <= |once| - |"%filename%"|
      ensures !ContainsAt(once, "%filename%", i)
    {
      assert once[i] == url[i] && url[i] in url;
      assert once[i..i + |"%filename%"|][0] == once[i] != '%';
    }
    ReplaceFirstAbsent(once, "%filename%", f);
  }

  /** A placeholder that appears twice is filled once: the second "%url%"
      of a template stays, where the later revisions' global replace
      fills both. */
  lemma FirstPlaceholderOnly(o: Options, e: Entry)
    requires o.copyMethod == Some(User) && o.userCommand == "%url% %url%"
    requires User !in o.customCommands && !o.proxyPref && !o.headersPref
    requires e.ext == "m3u8" && '%' !in e.url
    ensures Command(o, e) == Some(e.url + " %url%")
    ensures ReplaceAll(o.userCommand, "%url%", e.url) == e.url + " " + e.url
  {
    assert Resolve(o, e.ext) == Pick(User, false);
    assert WithProxy(o, User, WithCustom(o, User, Base(o, User))) == o.userCommand;
    FirstOfTwo(e.url);
    NoFilenamePlaceholder(e.url, e.filename);
    BothOfTwo(e.url);
  }

  /** An entry detected on the response channel carries no request
      headers, so with headers on it cannot be copied with a tool, and a
      batch holding it copies nothing. */
  lemma ResponseEntryAbortsBatch(o: Options, ex: Exchange, now: int, rest: seq<Entry>)
    requires ex.requestHeaders.None? && o.headersPref
    requires !Resolve(o, LegacyBackground.GetExtension(ex.url)).degraded && Configured(o) != Url
    ensures CopyUrls(o, [LegacyBackground.EntryFor(ex, now)] + rest) == None
  {
    var es := [LegacyBackground.EntryFor(ex, now)] + rest;
    assert Throws(o, es[0]);
  }

  /** The plain ffmpeg command: the stream as input, copied without
      re-encoding into an MPEG-TS file named after the entry. */
  lemma FfmpegShape(o: Options, e: Entry)
    requires Configured(o) == Ffmpeg && e.ext == "m3u8"
    requires Ffmpeg !in o.customCommands && !o.proxyPref && !o.headersPref
    ensures Command(o, e) == Some("ffmpeg -i \"" + e.url + "\" -c copy \"" + e.filename + ".ts\"")
  {
    assert Resolve(o, e.ext) == Pick(Ffmpeg, false);
    assert WithProxy(o, Ffmpeg, WithCustom(o, Ffmpeg, Base(o, Ffmpeg))) == "ffmpeg";
    var t := Trailer(o, e, Ffmpeg, "ffmpeg");
    assert Command(o, e) == Some(t);
    var q := "\"";
    assert t == "ffmpeg" + " -i " + (q + e.url + q) + " -c copy " + (q + (e.filename + ".ts") + q);
    assert "ffmpeg -i \"" == "ffmpeg" + " -i " + q;
    assert "\" -c copy \"" == q + " -c copy " + q;
    assert ".ts\"" == ".ts" + q;
    assert t == ("ffmpeg" + " -i " + q) + e.url + (q + " -c copy " + q) + e.filename + (".ts" + q);
  }

  /** An unset streamlink output writes to a file, as "file" does. */
  lemma StreamlinkDefaultsToFile(o: Options, e: Entry, code: string)
    requires o.streamlinkOutput == ""
    ensures Trailer(o, e, Streamlink, code) ==
      code + " -o \"" + e.filename + ".ts\" \"" + e.url + "\" best"
    ensures Trailer(o, e, Streamlink, code) == Trailer(o.(streamlinkOutput := "file"), e, Streamlink, code)
  {
  }

  /** A custom argument string is appended even where the later
      revisions' switch for it would be off. */
  lemma CustomNeedsNoSwitch(o: Options, s: Commands.Settings, t: Tool, code: string)
    requires t in o.customCommands && o.customCommands[t] != "" && !s.customCommandPref
    ensures WithCustom(o, t, code) == code + " " + o.customCommands[t]
    ensures Commands.WithCustom(Commands.Current, s, AsMethod(t), code) == code
  {
  }

  /** Without a captured referer this popup sends none, where the content
      revision falls back to the exchange's origin. */
  lemma NoRefererFallback(s: Commands.Settings, d: Descriptor)
    requires FindHeader(d.headers, "referer").None? && d.originUrl != ""
    ensures HeaderValues(d.headers, s.defaultUserAgent).referer == ""
    ensures Commands.HeaderValues(Commands.Content, s, d).referer == d.originUrl
  {
  }

  /** Copying two entries: their texts on two lines, and the flag of the
      second alone decides the notification's wording. */
  lemma {:induction false} BatchFlagIsLast(o: Options, a: Entry, b: Entry)
    requires !Throws(o, a) && !Throws(o, b)
    ensures CopyUrls(o, [a, b]).Some?
    ensures CopyUrls(o, [a, b]).value.text == Command(o, a).value + "\n" + Command(o, b).value
    ensures CopyUrls(o, [a, b]).value.degraded == Resolve(o, b.ext).degraded
  {
    var es := [a, b];
    var cs := CopyEach(o, es).value;
    assert CopyOne(o, es[0]) == Some(cs[0]) && CopyOne(o, es[1]) == Some(cs[1]);
    var texts := Map(cs, (c: Copied) => c.text);
    assert texts == [cs[0].text, cs[1].text];
    JoinTwo(cs[0].text, cs[1].text, "\n");
  }

  // ---------------------------------------------------------------------
  // createList

  /** Whether a view keeps a stored entry. "Previous session" shows the
      entries of the live list whose `restore` flag is set. */
  predicate Shows(view: ListView.View, tabId: int, e: Entry) {
    match view
    case ThisTab => e.tabId == tabId && !e.restore
    case AllTabs => !e.restore
    case Previous => e.restore
  }

  /** The filter box matches the file name, the extension or the host
      name; `f` is already lower case. */
  predicate Matches(f: string, e: Entry) {
    || Contains(Lower(e.filename), f)
    || Contains(Lower(e.ext), f)
    || Contains(Lower(e.hostname), f)
  }

  /** The entries a view lists for a filter text, in stored order. */
  function Listed(view: ListView.View, tabId: int, input: string, stored: seq<Entry>): (r: seq<Entry>)
    ensures forall e :: e in r <==> e in stored && Shows(view, tabId, e) && (Lower(input) == "" || Matches(Lower(input), e))
  {
    var selected := Filter(stored, (e: Entry) => Shows(view, tabId, e));
    var f := Lower(input);
    if f == "" then selected else Filter(selected, (e: Entry) => Matches(f, e))
  }

  datatype Display = Placeholder | Rows(entries: seq<Entry>)

  /** What the popup shows: the placeholder when nothing is listed, else
      one row per listed entry, newest first. */
  function Shown(view: ListView.View, tabId: int, input: string, stored: seq<Entry>): (r: Display)
    ensures r.Placeholder? <==> Listed(view, tabId, input, stored) == []
    ensures r.Rows? ==> var l := Listed(view, tabId, input, stored);
      |r.entries| == |l| && forall i :: 0 <= i < |l| ==> r.entries[i] == l[|l| - 1 - i]
  {
    var l := Listed(view, tabId, input, stored);
    if stored == [] || l == [] then Placeholder else Rows(Reverse(l))
  }

  function Entries(d: Display): seq<Entry> {
    match d
    case Placeholder => []
    case Rows(entries) => entries
  }

  function RowIds(entries: seq<Entry>): (ids: seq<string>)
    ensures |ids| == |entries| && forall i :: 0 <= i < |entries| ==> ids[i] == entries[i].requestId
  {
    Map(entries, (e: Entry) => e.requestId)
  }

  /** "Copy all" and "clear list" take the listed entries whose id is a
      row id; the listed entries are already in the order shown. */
  function RowSelection(list: seq<Entry>, ids: seq<string>): (r: seq<Entry>)
    ensures forall e :: e in r <==> e in list && e.requestId in ids
  {
    Filter(list, (e: Entry) => e.requestId in ids)
  }

  /** Every row shown is taken, newest first. */
  lemma RowSelectionTakesShown(entries: seq<Entry>)
    ensures RowSelection(entries, RowIds(entries)) == entries
  {
    var ids := RowIds(entries);
    forall i | 0 <= i < |entries|
      ensures entries[i].requestId in ids
    {
      assert ids[i] == entries[i].requestId;
    }
    FilterKeepsAll(entries, (e: Entry) => e.requestId in ids);
  }

  /** No stored entry carries the `restore` flag. */
  predicate Unflagged(stored: seq<Entry>) {
    forall i :: 0 <= i < |stored| ==> !stored[i].restore
  }

  /** background.js never sets the flag: detection keeps the live list
      unflagged. */
  lemma ObserveKeepsUnflagged(s: LegacyBackground.State, ex: Exchange, now: int, notifPref: Option<bool>)
    requires Unflagged(s.live)
    ensures Unflagged(LegacyBackground.Observe(s, ex, now, notifPref).state.live)
  {
    var o := LegacyBackground.Observe(s, ex, now, notifPref);
    forall i | 0 <= i < |o.state.live|
      ensures !o.state.live[i].restore
    {
      if i < |s.live| {
        assert o.state.live[i] == s.live[i];
      } else {
        assert o.state.live[i] == LegacyBackground.EntryFor(ex, now);
      }
    }
  }

  /** So over an unflagged list the previous-session view is always the
      placeholder, and "all tabs" shows every entry, newest first. */
  lemma {:induction false} PreviousViewEmpty(tabId: int, input: string, stored: seq<Entry>)
    requires Unflagged(stored)
    ensures Shown(ListView.Previous, tabId, input, stored) == Placeholder
    ensures stored != [] ==> Shown(ListView.AllTabs, tabId, "", stored) == Rows(Reverse(stored))
  {
    var l := Listed(ListView.Previous, tabId, input, stored);
    assert forall e :: e in stored ==> !e.restore;
    HeadIsMember(l);
    FilterKeepsAll(stored, (e: Entry) => Shows(ListView.AllTabs, tabId, e));
    assert Lower("") == "";
  }

  /** "Clear list" and the delete cross send the rows without a
      `previous` flag, and background.js then edits its restore list
      only: the live list, and with it every view, is left as it was. */
  lemma ClearListKeepsRows(s: LegacyBackground.State, view: ListView.View, tabId: int, input: string)
    ensures var shown := Entries(Shown(view, tabId, input, s.live));
      var o := LegacyBackground.Delete(s, RowIds(RowSelection(shown, RowIds(shown))), None);
      && o.state.live == s.live
      && Shown(view, tabId, input, o.state.live) == Shown(view, tabId, input, s.live)
      && o.effects == []
  {
  }
}
