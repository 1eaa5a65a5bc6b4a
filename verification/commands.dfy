/** The command synthesizer of the popup (`copyURL`): a stored descriptor
    and the user's settings become the text put on the clipboard — the bare
    URL, a table line, a Kodi URL, or a command line for ffmpeg, streamlink,
    youtube-dl, yt-dlp, hlsdl, N_m3u8DL-CLI or a user template.

    Two revisions are modelled together: `Current` is src/js/popup.js and
    `Content` is content/popup.js. They share the construction and differ
    in the compatibility matrix, in the referer and origin fallback chains
    and in how a stored setting counts as present: the current popup reads
    parsed values, so an empty string is absent, while the older popup
    tests the raw JSON text, where a stored empty string is still present. */
module Commands {
  import opened Wrappers
  import opened Text
  import opened Lists
  import opened Rules
  import opened Exchanges
  import opened UriComponent

  datatype Method = Url | TableForm | KodiUrl | Ffmpeg | Streamlink | YoutubeDl | YtDlp | Hlsdl | Nm3u8dl | User

  datatype Revision = Current | Content

  /** The stored settings `copyURL` reads. A `None` is a key that was never
      stored; `customCommands` maps a method to its `customCommand<method>`
      entry. The browser's own user agent and the platform newline are
      inputs. */
  datatype Settings = Settings(
    copyMethod: Option<Method>,
    userCommand: Option<string>,
    downloaderPref: bool,
    downloaderCommand: Option<string>,
    customCommandPref: bool,
    customCommands: map<Method, string>,
    proxyPref: bool,
    proxyCommand: Option<string>,
    headersPref: bool,
    titlePref: bool,
    filenamePref: bool,
    timestampPref: bool,
    fileExtension: string,
    streamlinkOutput: string,
    notifPref: Option<bool>,
    newline: string,
    defaultUserAgent: string)

  /** Whether a stored text setting counts as set. */
  predicate Stored(rev: Revision, o: Option<string>) {
    o.Some? && (rev == Content || o.value != "")
  }

  /** The configured method, "url" when none is stored. */
  function Configured(s: Settings): Method {
    s.copyMethod.GetOr(Url)
  }

  // ---------------------------------------------------------------------
  // Compatibility

  /** The pairs of resource and method the popup refuses. */
  predicate Incompatible(rev: Revision, m: Method, d: Descriptor) {
    var t := d.typeName;
    match rev
    case Current =>
      || (t == "HDS" && m == Ffmpeg)
      || (t == "MSS" && m != YoutubeDl && m != YtDlp && m != User)
      || (d.category == Subtitles && m != Url && m != User)
      || (t != "HLS" && m == Hlsdl)
      || (t != "HLS" && m == Nm3u8dl)
      || (t == "CUSTOM" && m != Url && m != User)
    case Content =>
      || (t == "HDS" && m == Ffmpeg)
      || (t == "MSS" && m != YoutubeDl && m != YtDlp)
      || (d.category == Subtitles && m != Url)
      || (t != "HLS" && m == Hlsdl)
      || (t != "HLS" && m == Nm3u8dl)
  }

  datatype Choice = Choice(tool: Method, degraded: bool)

  /** The method actually used: the configured one, or the bare URL with
      the "incompatible" flag when the matrix refuses the pair or the user
      method has no stored template. */
  function Resolve(rev: Revision, s: Settings, d: Descriptor): (c: Choice)
    ensures c.degraded <==>
      Incompatible(rev, Configured(s), d) || (Configured(s) == User && s.userCommand.None?)
    ensures c.degraded ==> c.tool == Url
    ensures !c.degraded ==> c.tool == Configured(s)
  {
    var m := Configured(s);
    if Incompatible(rev, m, d) then Choice(Url, true)
    else if m == User && s.userCommand.None? then Choice(Url, true)
    else Choice(m, false)
  }

  // ---------------------------------------------------------------------
  // Header values

  datatype HeaderSet = HeaderSet(userAgent: string, cookie: string, referer: string)

  /** The value of the first captured header called `name`, else `fallback`. */
  function CapturedOr(hs: seq<Header>, name: string, fallback: string): (r: string)
    ensures FindHeader(hs, name).Some? ==> r == FindHeader(hs, name).value.value
    ensures FindHeader(hs, name).None? ==> r == fallback
  {
    match FindHeader(hs, name)
    case Some(h) => h.value
    case None => fallback
  }

  /** Where the referer comes from when none was captured. */
  function RefererChain(rev: Revision, d: Descriptor): string {
    match rev
    case Current => FirstPresent([d.originUrl, d.documentUrl, d.initiator, d.tab.url])
    case Content => FirstPresent([d.originUrl, d.documentUrl, d.tab.url])
  }

  /** The value of `%origin%`. */
  function OriginChain(rev: Revision, d: Descriptor): string {
    match rev
    case Current => FirstPresent([d.documentUrl, d.originUrl, d.initiator, d.tab.url])
    case Content => FirstPresent([d.documentUrl, d.originUrl, d.tab.url])
  }

  /** Browser-internal pages are never sent as a referer. */
  predicate Privileged(url: string) {
    StartsWith(url, "about:") || StartsWith(url, "chrome:")
  }

  /** The three header values a command carries; "" means the header is
      left out. */
  function HeaderValues(rev: Revision, s: Settings, d: Descriptor): (h: HeaderSet)
    ensures h.userAgent == CapturedOr(d.headers, "user-agent", s.defaultUserAgent)
    ensures '"' !in h.cookie
    ensures FindHeader(d.headers, "cookie").None? ==> h.cookie == ""
    ensures rev == Current ==> !Privileged(h.referer)
    ensures var raw := CapturedOr(d.headers, "referer", RefererChain(rev, d));
      (rev == Content || !Privileged(raw)) ==> h.referer == raw
  {
    var raw := CapturedOr(d.headers, "referer", RefererChain(rev, d));
    HeaderSet(CapturedOr(d.headers, "user-agent", s.defaultUserAgent),
              CookieValue(d.headers),
              if rev == Current && Privileged(raw) then "" else raw)
  }

  /** The captured cookie with every '"' turned into '\'', so that it
      cannot close the quotes around it; "" when none was captured. */
  function CookieValue(hs: seq<Header>): (c: string)
    ensures '"' !in c
    ensures FindHeader(hs, "cookie").None? ==> c == ""
    ensures FindHeader(hs, "cookie").Some? ==> |c| == |FindHeader(hs, "cookie").value.value|
  {
    match FindHeader(hs, "cookie")
    case Some(h) =>
      ReplaceAllChar(h.value, '"', '\'');
      ReplaceAll(h.value, "\"", "'")
    case None => ""
  }

  // ---------------------------------------------------------------------
  // Per-tool arguments

  function Quoted(v: string): string {
    "\"" + v + "\""
  }

  /** A `name=value` field of a Kodi URL's header suffix. */
  function KodiField(name: string, v: string): string {
    name + "=" + Encode(v)
  }

  /** A `name:value` field of N_m3u8DL-CLI's header argument. */
  function Nm3u8Field(name: string, v: string): string {
    name + ":" + Encode(v)
  }

  const HeaderOpen := " --header \""

  function UserAgentArg(m: Method, h: HeaderSet): string {
    var v := h.userAgent;
    if v == "" then ""
    else match m
      case KodiUrl => "|" + KodiField("User-Agent", v)
      case Ffmpeg => " -user_agent " + Quoted(v)
      case Streamlink => " --http-header " + Quoted("User-Agent=" + v)
      case YoutubeDl => " --user-agent " + Quoted(v)
      case YtDlp => " --user-agent " + Quoted(v)
      case Hlsdl => " -u " + Quoted(v)
      case Nm3u8dl =>
        HeaderOpen + Nm3u8Field("User-Agent", v) + (if h.cookie == "" && h.referer == "" then "\"" else "")
      case _ => ""
  }

  function CookieArg(m: Method, h: HeaderSet): string {
    var v := h.cookie;
    if v == "" then ""
    else match m
      case KodiUrl => (if h.userAgent != "" then "&" else "|") + KodiField("Cookie", v)
      case Ffmpeg => " -headers " + Quoted("Cookie: " + v)
      case Streamlink => " --http-header " + Quoted("Cookie=" + v)
      case YoutubeDl => " --add-header " + Quoted("Cookie:" + v)
      case YtDlp => " --add-header " + Quoted("Cookie:" + v)
      case Hlsdl => " -h " + Quoted("Cookie:" + v)
      case Nm3u8dl =>
        (if h.userAgent == "" then HeaderOpen else "|") + Nm3u8Field("Cookie", v) +
        (if h.referer == "" then "\"" else "")
      case _ => ""
  }

  function RefererArg(m: Method, h: HeaderSet): string {
    var v := h.referer;
    if v == "" then ""
    else match m
      case KodiUrl => (if h.userAgent != "" || h.cookie != "" then "&" else "|") + KodiField("Referer", v)
      case Ffmpeg => " -referer " + Quoted(v)
      case Streamlink => " --http-header " + Quoted("Referer=" + v)
      case YoutubeDl => " --referer " + Quoted(v)
      case YtDlp => " --referer " + Quoted(v)
      case Hlsdl => " -h " + Quoted("Referer:" + v)
      case Nm3u8dl =>
        (if h.userAgent == "" && h.cookie == "" then HeaderOpen else "|") + Nm3u8Field("Referer", v) + "\""
      case _ => ""
  }

  /** What a tool's command gains from the headers, in the order user
      agent, cookie, referer. */
  function HeaderSuffix(m: Method, h: HeaderSet): string {
    UserAgentArg(m, h) + CookieArg(m, h) + RefererArg(m, h)
  }

  /** The template placeholders the header step fills. */
  function UserHeaders(rev: Revision, d: Descriptor, h: HeaderSet, code: string): string {
    var c1 := ReplaceAll(code, "%useragent%", h.userAgent);
    var c2 := ReplaceAll(c1, "%cookie%", h.cookie);
    var c3 := ReplaceAll(c2, "%referer%", h.referer);
    var c4 := ReplaceAll(c3, "%origin%", OriginChain(rev, d));
    ReplaceAll(c4, "%tabtitle%", Sanitize(d.tab.title))
  }

  function ProxyArg(m: Method, proxy: string): string {
    match m
    case Ffmpeg => " -http_proxy " + Quoted(proxy)
    case Streamlink => " --http-proxy " + Quoted(proxy)
    case YoutubeDl => " --proxy " + Quoted(proxy)
    case YtDlp => " --proxy " + Quoted(proxy)
    case Hlsdl => " -p " + Quoted(proxy)
    case Nm3u8dl => " --proxyAddress " + Quoted(proxy)
    case _ => ""
  }

  function CustomFor(s: Settings, m: Method): Option<string> {
    if m in s.customCommands then Some(s.customCommands[m]) else None
  }

  // ---------------------------------------------------------------------
  // Construction steps

  function Downloader(rev: Revision, s: Settings): string {
    if s.downloaderPref && Stored(rev, s.downloaderCommand) then
      " --external-downloader " + Quoted(s.downloaderCommand.value)
    else ""
  }

  /** The tool's base token. */
  function Base(rev: Revision, s: Settings, m: Method, url: string): string {
    match m
    case KodiUrl => url
    case Ffmpeg => "ffmpeg"
    case Streamlink => "streamlink"
    case YoutubeDl => "youtube-dl --no-part --restrict-filenames" + Downloader(rev, s)
    case YtDlp => "yt-dlp --no-part --restrict-filenames" + Downloader(rev, s)
    case Hlsdl => "hlsdl -b -c"
    case Nm3u8dl => "N_m3u8DL-CLI " + Quoted(url) + " --enableMuxFastStart --enableDelAfterDone"
    case User => s.userCommand.GetOr("")
    case _ => ""
  }

  function WithCustom(rev: Revision, s: Settings, m: Method, code: string): string {
    if s.customCommandPref && Stored(rev, CustomFor(s, m)) then code + " " + CustomFor(s, m).value else code
  }

  predicate ProxyConfigured(rev: Revision, s: Settings) {
    s.proxyPref && Stored(rev, s.proxyCommand)
  }

  function WithProxy(rev: Revision, s: Settings, m: Method, code: string): string {
    if !ProxyConfigured(rev, s) then code
    else if m == User then ReplaceAll(code, "%proxy%", s.proxyCommand.value)
    else code + ProxyArg(m, s.proxyCommand.value)
  }

  function WithHeaders(rev: Revision, s: Settings, d: Descriptor, m: Method, code: string): string {
    if !s.headersPref then code
    else if m == User then UserHeaders(rev, d, HeaderValues(rev, s, d), code)
    else code + HeaderSuffix(m, HeaderValues(rev, s, d))
  }

  // ---------------------------------------------------------------------
  // Output file name

  /** The file name without its last extension, when its first '.' is not
      its first character. */
  function StripExtension(f: string): (r: string)
    ensures '.' !in f ==> r == ""
    ensures |f| > 0 && f[0] == '.' ==> r == f
    ensures '.' in f && f[0] != '.' ==>
      |r| < |f| && r == f[..|r|] && f[|r|] == '.' && '.' !in f[|r| + 1..]
  {
    IndexOfChar(f, '.');
    if IndexOf(f, ".") == 0 then f
    else
      DropLastPart(f);
      var parts := Split(f, '.');
      Join(parts[..|parts| - 1], ".")
  }

  /** Dropping the last '.'-separated part keeps the text before the last
      '.', and nothing of a name without one. */
  lemma DropLastPart(f: string)
    ensures var parts := Split(f, '.');
      var r := Join(parts[..|parts| - 1], ".");
      && ('.' !in f ==> r == "")
      && ('.' in f ==> |r| < |f| && r == f[..|r|] && f[|r|] == '.' && '.' !in f[|r| + 1..])
  {
    if '.' in f {
      SplitDropLast(f, '.');
      LastIndexOfChar(f, '.');
    } else {
      SplitNoSeparator(f, '.');
    }
  }

  lemma {:induction false} SplitNoSeparator(s: string, c: char)
    requires c !in s
    ensures Split(s, c) == [s]
    decreases |s|
  {
    if s != [] {
      assert c !in s[1..];
      SplitNoSeparator(s[1..], c);
      assert [s[0]] + s[1..] == s;
    }
  }

  /** The file name without its extension, as the comment on the extension
      test of `copyURL` describes it: a name with no '.' is kept whole,
      instead of emptied as `StripExtension` does. */
  function BaseName(f: string): (r: string)
    ensures '.' !in f ==> r == f
    ensures |f| > 0 && f[0] == '.' ==> r == f
    ensures '.' in f && f[0] != '.' ==>
      |r| < |f| && r == f[..|r|] && f[|r|] == '.' && '.' !in f[|r| + 1..]
    ensures |f| > 0 ==> |r| > 0
  {
    if '.' in f then StripExtension(f) else f
  }

  /** The output name, as written: the tab title when asked for and known,
      else the file name stripped by `StripExtension`, which leaves nothing
      of a name without a '.'; path-hostile characters become '_'. */
  function OutputName(s: Settings, d: Descriptor): (r: string)
    ensures PathSafe(r)
    ensures !(s.filenamePref && d.tab.title != "") && '.' !in d.filename ==> r == ""
  {
    var base := if s.filenamePref && d.tab.title != "" then d.tab.title else StripExtension(d.filename);
    SanitizeIsSafe(base);
    Sanitize(base)
  }

  /** The output name as intended: a file name without a '.' is kept whole,
      so a named download never gets an empty output name. */
  function OutputNameCorrected(s: Settings, d: Descriptor): (r: string)
    ensures PathSafe(r)
    ensures !(s.filenamePref && d.tab.title != "") && '.' !in d.filename ==> r == Sanitize(d.filename)
    ensures d.filename != "" ==> r != ""
  {
    var base := if s.filenamePref && d.tab.title != "" then d.tab.title else BaseName(d.filename);
    SanitizeIsSafe(base);
    Sanitize(base)
  }

  function Extension(s: Settings): string {
    if s.fileExtension != "" then s.fileExtension else "ts"
  }

  /** The tail of every ffmpeg command: the input, then the output file. */
  function FfmpegTail(s: Settings, d: Descriptor, stamp: string): string {
    var named := OutputName(s, d) + (if s.timestampPref then " " + Sanitize(stamp) else "");
    " -i " + Quoted(d.url) + " -c copy " + Quoted(named + "." + Extension(s))
  }

  /** The final part of each tool's command. */
  function Trailer(s: Settings, d: Descriptor, m: Method, code: string, stamp: string): string {
    var out := OutputName(s, d);
    var ts := Sanitize(stamp);
    var named := out + (if s.timestampPref then " " + ts else "");
    match m
    case Ffmpeg => code + FfmpegTail(s, d, stamp)
    case Streamlink =>
      code + (if s.streamlinkOutput == "file" then " -o " + Quoted(named + "." + Extension(s)) else "") +
      " " + Quoted(d.url) + " best"
    case YoutubeDl => code + YtOutput(s, d, out) + " " + Quoted(d.url)
    case YtDlp => code + YtOutput(s, d, out) + " " + Quoted(d.url)
    case Hlsdl => code + " -o " + Quoted(named + "." + Extension(s)) + " " + Quoted(d.url)
    case Nm3u8dl => code + " --saveName " + Quoted(named)
    case User =>
      ReplaceAll(ReplaceAll(ReplaceAll(code, "%url%", d.url), "%filename%", d.filename), "%timestamp%", ts)
    case _ => code
  }

  /** youtube-dl and yt-dlp name their output only when a title or a
      timestamp is wanted, and let the tool pick the extension. */
  function YtOutput(s: Settings, d: Descriptor, out: string): string {
    if (s.filenamePref && d.tab.title != "") || s.timestampPref then
      " --output " + Quoted(out + (if s.timestampPref then " %(epoch)s" else "") + ".%(ext)s")
    else ""
  }

  /** The "table" line: URL, source and time. */
  function TableLine(s: Settings, d: Descriptor, stamp: string): string {
    var source := if s.titlePref && d.tab.title != "" && !Contains(d.url, d.tab.title) then d.tab.title else d.hostname;
    d.url + " | " + source + " | " + stamp
  }

  /** The command of a tool method: base token, custom arguments, proxy,
      headers, trailer — in that order. */
  function Command(rev: Revision, s: Settings, d: Descriptor, m: Method, stamp: string): string {
    var base := Base(rev, s, m, d.url);
    var custom := WithCustom(rev, s, m, base);
    var proxied := WithProxy(rev, s, m, custom);
    var headed := WithHeaders(rev, s, d, m, proxied);
    Trailer(s, d, m, headed, stamp)
  }

  datatype Copied = Copied(text: string, filename: string, degraded: bool)

  /** One entry of `copyURL`; `stamp` is the entry's formatted time. */
  function Synthesize(rev: Revision, s: Settings, d: Descriptor, stamp: string): (c: Copied)
    ensures c.filename == d.filename
    ensures c.degraded == Resolve(rev, s, d).degraded
    ensures c.degraded ==> c.text == d.url
    ensures Resolve(rev, s, d).tool == Url ==> c.text == d.url
  {
    var ch := Resolve(rev, s, d);
    var text :=
      if ch.tool == Url then d.url
      else if ch.tool == TableForm then TableLine(s, d, stamp)
      else Command(rev, s, d, ch.tool, stamp);
    Copied(text, d.filename, ch.degraded)
  }

  // ---------------------------------------------------------------------
  // A batch

  datatype Clip = Clip(text: string, filenames: seq<string>, degraded: bool)

  function SynthesizeAll(rev: Revision, s: Settings, ds: seq<Descriptor>, stamps: seq<string>): (r: seq<Copied>)
    requires |stamps| == |ds|
    ensures |r| == |ds|
    ensures forall i :: 0 <= i < |ds| ==> r[i] == Synthesize(rev, s, ds[i], stamps[i])
  {
    if ds == [] then [] else [Synthesize(rev, s, ds[0], stamps[0])] + SynthesizeAll(rev, s, ds[1..], stamps[1..])
  }

  /** `copyURL` over a list: one text per entry, joined by the platform
      newline, and the "incompatible" flag of the last entry only. */
  function CopyAll(rev: Revision, s: Settings, ds: seq<Descriptor>, stamps: seq<string>): (r: Clip)
    requires |stamps| == |ds|
    ensures |r.filenames| == |ds| && forall i :: 0 <= i < |ds| ==> r.filenames[i] == ds[i].filename
    ensures r.degraded <==> |ds| > 0 && Resolve(rev, s, ds[|ds| - 1]).degraded
  {
    var copies := SynthesizeAll(rev, s, ds, stamps);
    Clip(Join(Map(copies, (c: Copied) => c.text), s.newline),
         Map(copies, (c: Copied) => c.filename),
         if copies == [] then false else Last(copies).degraded)
  }

  /** Whether any entry of a batch fell back to its URL. */
  function AnyDegraded(copies: seq<Copied>): (r: bool)
    ensures r <==> exists i :: 0 <= i < |copies| && copies[i].degraded
  {
    if copies == [] then false
    else if copies[0].degraded then true
    else
      var rest := AnyDegraded(copies[1..]);
      rest
  }

  /** `copyURL` over a list as its notification evidently means it: the
      "incompatible" flag is raised when ANY entry fell back to its URL.
      The text and filenames are those of `CopyAll`. */
  function CopyAllReported(rev: Revision, s: Settings, ds: seq<Descriptor>, stamps: seq<string>): (r: Clip)
    requires |stamps| == |ds|
    ensures r.text == CopyAll(rev, s, ds, stamps).text
    ensures r.filenames == CopyAll(rev, s, ds, stamps).filenames
    ensures r.degraded <==> exists i :: 0 <= i < |ds| && Resolve(rev, s, ds[i]).degraded
  {
    var copies := SynthesizeAll(rev, s, ds, stamps);
    var flag := AnyDegraded(copies);
    assert forall i :: 0 <= i < |ds| ==> copies[i].degraded == Resolve(rev, s, ds[i]).degraded;
    CopyAll(rev, s, ds, stamps).(degraded := flag)
  }

  /** Whether copying shows a notification: the current popup wants the
      setting explicitly off, the older one anything but on. */
  predicate CopyNotifies(rev: Revision, s: Settings) {
    match rev
    case Current => s.notifPref == Some(false)
    case Content => s.notifPref != Some(true)
  }

  // ---------------------------------------------------------------------
  // Properties of the matrix

  /** MSS copied as a bare URL is still reported incompatible. */
  lemma MssUrlIsFlagged(rev: Revision, s: Settings, d: Descriptor, stamp: string)
    requires d.typeName == "MSS" && Configured(s) == Url
    ensures Synthesize(rev, s, d, stamp) == Copied(d.url, d.filename, true)
  {
  }

  /** hlsdl and N_m3u8DL-CLI are only ever used for HLS. */
  lemma HlsToolsOnlyForHls(rev: Revision, s: Settings, d: Descriptor)
    requires Resolve(rev, s, d).tool in {Hlsdl, Nm3u8dl}
    ensures d.typeName == "HLS"
  {
  }

  /** The current popup lets a user template handle MSS, subtitles and
      custom types; the older one sends MSS and subtitles back to the bare
      URL. */
  lemma UserTemplateAcrossRevisions(s: Settings, d: Descriptor)
    requires Configured(s) == User && s.userCommand.Some?
    requires d.typeName == "MSS" || d.category == Subtitles
    ensures Resolve(Current, s, d) == Choice(User, false)
    ensures Resolve(Content, s, d) == Choice(Url, true)
  {
  }

  /** A custom-type detection can only be copied as a URL or through a
      template in the current popup; the older one has no such rule. */
  lemma CustomTypeMethods(s: Settings, d: Descriptor)
    requires d.typeName == "CUSTOM" && d.category == Custom
    ensures !Resolve(Current, s, d).degraded ==> Resolve(Current, s, d).tool in {Url, User}
    ensures Configured(s) == Ffmpeg ==> Resolve(Content, s, d) == Choice(Ffmpeg, false)
  {
  }

  // ---------------------------------------------------------------------
  // Properties of the header values

  /** The referer falls back to the origin URL before the document URL. */
  lemma RefererPrefersOrigin(rev: Revision, s: Settings, d: Descriptor)
    requires FindHeader(d.headers, "referer").None?
    requires d.originUrl != "" && !Privileged(d.originUrl)
    ensures HeaderValues(rev, s, d).referer == d.originUrl
  {
  }

  /** An "about:" fallback is dropped by the current popup and kept by the
      older one. */
  lemma AboutRefererAcrossRevisions(s: Settings, d: Descriptor)
    requires FindHeader(d.headers, "referer").None?
    requires d.originUrl == "about:blank"
    ensures HeaderValues(Current, s, d).referer == ""
    ensures HeaderValues(Content, s, d).referer == "about:blank"
  {
    assert StartsWith("about:blank", "about:");
  }

  /** The fields present, in order. */
  function Present(bu: bool, u: string, bc: bool, c: string, br: bool, r: string): seq<string> {
    (if bu then [u] else []) + (if bc then [c] else []) + (if br then [r] else [])
  }

  /** Opening with `lead` before the first present field and `sep` before
      each later one is `lead` followed by the fields joined by `sep`. */
  lemma LeadThenSeparators(bu: bool, u: string, bc: bool, c: string, br: bool, r: string, lead: string, sep: string)
    ensures var fields := Present(bu, u, bc, c, br, r);
      (if bu then lead + u else "") +
      (if bc then (if bu then sep else lead) + c else "") +
      (if br then (if bu || bc then sep else lead) + r else "")
      == if fields == [] then "" else lead + Join(fields, sep)
  {
    if bu && bc && br {
      JoinThree(u, c, r, sep);
    } else if bu && bc {
      JoinTwo(u, c, sep);
    } else if bu && br {
      JoinTwo(u, r, sep);
    } else if bc && br {
      JoinTwo(c, r, sep);
    }
  }

  /** The same, with a closing `close` after the last present field. */
  lemma LeadSeparatorsClose(bu: bool, u: string, bc: bool, c: string, br: bool, r: string,
                            lead: string, sep: string, close: string)
    ensures var fields := Present(bu, u, bc, c, br, r);
      (if bu then lead + u + (if !bc && !br then close else "") else "") +
      (if bc then (if !bu then lead else sep) + c + (if !br then close else "") else "") +
      (if br then (if !bu && !bc then lead else sep) + r + close else "")
      == if fields == [] then "" else lead + Join(fields, sep) + close
  {
    if bu && bc && br {
      JoinThree(u, c, r, sep);
    } else if bu && bc {
      JoinTwo(u, c, sep);
    } else if bu && br {
      JoinTwo(u, r, sep);
    } else if bc && br {
      JoinTwo(c, r, sep);
    }
  }

  /** The header fields N_m3u8DL-CLI receives, in order. */
  function Nm3u8Fields(h: HeaderSet): seq<string> {
    Present(h.userAgent != "", Nm3u8Field("User-Agent", h.userAgent),
            h.cookie != "", Nm3u8Field("Cookie", h.cookie),
            h.referer != "", Nm3u8Field("Referer", h.referer))
  }

  /** The N_m3u8DL-CLI header argument is a single `--header "…"` whose
      fields are separated by '|'. */
  lemma Nm3u8HeaderIsOneArgument(h: HeaderSet)
    ensures var fields := Nm3u8Fields(h);
      HeaderSuffix(Nm3u8dl, h) == if fields == [] then "" else HeaderOpen + Join(fields, "|") + "\""
  {
    LeadSeparatorsClose(h.userAgent != "", Nm3u8Field("User-Agent", h.userAgent),
                        h.cookie != "", Nm3u8Field("Cookie", h.cookie),
                        h.referer != "", Nm3u8Field("Referer", h.referer), HeaderOpen, "|", "\"");
  }

  /** The header fields a Kodi URL receives, in order. */
  function KodiFields(h: HeaderSet): seq<string> {
    Present(h.userAgent != "", KodiField("User-Agent", h.userAgent),
            h.cookie != "", KodiField("Cookie", h.cookie),
            h.referer != "", KodiField("Referer", h.referer))
  }

  /** A Kodi URL gets its headers after a single '|', as `name=value`
      fields separated by '&'. */
  lemma KodiHeaderSyntax(h: HeaderSet)
    ensures var fields := KodiFields(h);
      HeaderSuffix(KodiUrl, h) == if fields == [] then "" else "|" + Join(fields, "&")
  {
    LeadThenSeparators(h.userAgent != "", KodiField("User-Agent", h.userAgent),
                       h.cookie != "", KodiField("Cookie", h.cookie),
                       h.referer != "", KodiField("Referer", h.referer), "|", "&");
  }

  // ---------------------------------------------------------------------
  // Properties of the output name

  /** As written, the extension test lets a name without a '.' through, and
      stripping then leaves nothing of it; the intended base name keeps it. */
  lemma DotlessNameStripped(f: string)
    requires |f| > 0 && '.' !in f
    ensures StripExtension(f) == ""
    ensures BaseName(f) == f
  {
  }

  /** Without a title, a file name without a '.' gives an empty output
      name as written, and the sanitized name as intended. */
  lemma DotlessNameEmptied(s: Settings, d: Descriptor)
    requires !(s.filenamePref && d.tab.title != "")
    requires '.' !in d.filename && d.filename != ""
    ensures OutputName(s, d) == ""
    ensures OutputNameCorrected(s, d) == Sanitize(d.filename) != OutputName(s, d)
  {
  }

  /** The two output names differ only on a dot-less file name used
      without a title. */
  lemma OutputNamesAgree(s: Settings, d: Descriptor)
    ensures OutputName(s, d) == OutputNameCorrected(s, d) <==>
      (s.filenamePref && d.tab.title != "") || '.' in d.filename || d.filename == ""
  {
    if !(s.filenamePref && d.tab.title != "") && '.' !in d.filename && d.filename != "" {
      DotlessNameEmptied(s, d);
    }
  }

  /** "N.E" loses its last extension only. */
  lemma NameLosesLastExtension(s: Settings, d: Descriptor, n: string, e: string)
    requires !(s.filenamePref && d.tab.title != "")
    requires d.filename == n + "." + e && '.' !in e && |n| > 0 && n[0] != '.'
    ensures OutputName(s, d) == Sanitize(n)
  {
    assert d.filename[|n|] == '.';
    StripLastExtension(n, e);
  }

  lemma StripLastExtension(n: string, e: string)
    requires '.' !in e && |n| > 0 && n[0] != '.'
    ensures StripExtension(n + "." + e) == n
  {
    var f := n + "." + e;
    assert f[|n|] == '.' && f[0] == n[0];
    var r := StripExtension(f);
    assert |r| == |n|;
    assert f[..|n|] == n;
  }

  // ---------------------------------------------------------------------
  // Properties of the whole command

  lemma CustomAppends(rev: Revision, s: Settings, m: Method, code: string)
    ensures code <= WithCustom(rev, s, m, code)
  {
  }

  lemma ProxyAppends(rev: Revision, s: Settings, m: Method, code: string)
    requires m != User
    ensures code <= WithProxy(rev, s, m, code)
  {
  }

  lemma HeadersAppend(rev: Revision, s: Settings, d: Descriptor, m: Method, code: string)
    requires m != User
    ensures WithHeaders(rev, s, d, m, code) ==
      code + (if s.headersPref then HeaderSuffix(m, HeaderValues(rev, s, d)) else "")
  {
  }

  lemma TrailerAppends(s: Settings, d: Descriptor, m: Method, code: string, stamp: string)
    requires m != User
    ensures code <= Trailer(s, d, m, code, stamp)
  {
  }

  lemma FfmpegRefererArg(h: HeaderSet)
    requires h.referer != ""
    ensures RefererArg(Ffmpeg, h) == " -referer " + Quoted(h.referer)
  {
  }

  /** Every tool command begins with its base token: the later steps only
      append. */
  lemma BaseComesFirst(rev: Revision, s: Settings, d: Descriptor, m: Method, stamp: string)
    requires m != Url && m != TableForm && m != User
    ensures StartsWith(Command(rev, s, d, m, stamp), Base(rev, s, m, d.url))
  {
    var base := Base(rev, s, m, d.url);
    var custom := WithCustom(rev, s, m, base);
    var proxied := WithProxy(rev, s, m, custom);
    var headed := WithHeaders(rev, s, d, m, proxied);
    CustomAppends(rev, s, m, base);
    ProxyAppends(rev, s, m, custom);
    HeadersAppend(rev, s, d, m, proxied);
    TrailerAppends(s, d, m, headed, stamp);
    assert Command(rev, s, d, m, stamp) == Trailer(s, d, m, headed, stamp);
  }

  /** The ffmpeg text is the headed command followed by the tail. */
  lemma FfmpegText(rev: Revision, s: Settings, d: Descriptor, stamp: string)
    requires Resolve(rev, s, d).tool == Ffmpeg
    ensures Synthesize(rev, s, d, stamp).text ==
      WithHeaders(rev, s, d, Ffmpeg, WithProxy(rev, s, Ffmpeg, WithCustom(rev, s, Ffmpeg, "ffmpeg"))) +
      FfmpegTail(s, d, stamp)
  {
    assert Synthesize(rev, s, d, stamp).text == Command(rev, s, d, Ffmpeg, stamp);
  }

  /** The ffmpeg command: base token first, the input and the output file
      last. */
  lemma FfmpegShape(rev: Revision, s: Settings, d: Descriptor, stamp: string)
    requires Resolve(rev, s, d).tool == Ffmpeg
    ensures var text := Synthesize(rev, s, d, stamp).text;
      exists middle :: text == "ffmpeg" + middle + FfmpegTail(s, d, stamp)
  {
    FfmpegText(rev, s, d, stamp);
    FfmpegHeadFirst(rev, s, d);
    PrefixThenTail("ffmpeg",
      WithHeaders(rev, s, d, Ffmpeg, WithProxy(rev, s, Ffmpeg, WithCustom(rev, s, Ffmpeg, "ffmpeg"))),
      FfmpegTail(s, d, stamp));
  }

  /** Custom, proxy and header arguments keep "ffmpeg" in front. */
  lemma FfmpegHeadFirst(rev: Revision, s: Settings, d: Descriptor)
    ensures "ffmpeg" <= WithHeaders(rev, s, d, Ffmpeg, WithProxy(rev, s, Ffmpeg, WithCustom(rev, s, Ffmpeg, "ffmpeg")))
  {
    var custom := WithCustom(rev, s, Ffmpeg, "ffmpeg");
    var proxied := WithProxy(rev, s, Ffmpeg, custom);
    CustomAppends(rev, s, Ffmpeg, "ffmpeg");
    ProxyAppends(rev, s, Ffmpeg, custom);
    HeadersAppend(rev, s, d, Ffmpeg, proxied);
  }

  lemma PrefixThenTail(a: string, b: string, tail: string)
    requires a <= b
    ensures exists middle :: b + tail == a + middle + tail
  {
    var middle := b[|a|..];
    assert b == a + middle;
  }

  /** With headers on, the captured (or fallen-back) referer reaches the
      ffmpeg command as its `-referer` argument. */
  lemma FfmpegCarriesReferer(rev: Revision, s: Settings, d: Descriptor, stamp: string)
    requires Resolve(rev, s, d).tool == Ffmpeg
    requires s.headersPref && HeaderValues(rev, s, d).referer != ""
    ensures Contains(Synthesize(rev, s, d, stamp).text, " -referer " + Quoted(HeaderValues(rev, s, d).referer))
  {
    var proxied := WithProxy(rev, s, Ffmpeg, WithCustom(rev, s, Ffmpeg, "ffmpeg"));
    var headed := WithHeaders(rev, s, d, Ffmpeg, proxied);
    var h := HeaderValues(rev, s, d);
    var ua, cookie, referer := UserAgentArg(Ffmpeg, h), CookieArg(Ffmpeg, h), RefererArg(Ffmpeg, h);
    FfmpegText(rev, s, d, stamp);
    FfmpegRefererArg(h);
    HeadersAppend(rev, s, d, Ffmpeg, proxied);
    assert headed == proxied + (ua + cookie + referer);
    ContainsSelf(referer);
    ContainsInRight(ua + cookie, referer, referer);
    ContainsInRight(proxied, ua + cookie + referer, referer);
    ContainsInLeft(headed, FfmpegTail(s, d, stamp), referer);
  }

  /** A template without any '%' is copied as it is. */
  lemma PlainTemplateVerbatim(rev: Revision, s: Settings, d: Descriptor, stamp: string)
    requires Resolve(rev, s, d).tool == User
    requires s.userCommand.Some? && '%' !in s.userCommand.value
    requires !(s.customCommandPref && Stored(rev, CustomFor(s, User)))
    ensures Synthesize(rev, s, d, stamp).text == s.userCommand.value
  {
    var t := s.userCommand.value;
    if ProxyConfigured(rev, s) {
      ReplaceAllNoChar(t, "%proxy%", s.proxyCommand.value);
    }
    assert WithProxy(rev, s, User, t) == t;
    if s.headersPref {
      var h := HeaderValues(rev, s, d);
      ReplaceAllNoChar(t, "%useragent%", h.userAgent);
      ReplaceAllNoChar(t, "%cookie%", h.cookie);
      ReplaceAllNoChar(t, "%referer%", h.referer);
      ReplaceAllNoChar(t, "%origin%", OriginChain(rev, d));
      ReplaceAllNoChar(t, "%tabtitle%", Sanitize(d.tab.title));
    }
    assert WithHeaders(rev, s, d, User, t) == t;
    ReplaceAllNoChar(t, "%url%", d.url);
    ReplaceAllNoChar(t, "%filename%", d.filename);
    ReplaceAllNoChar(t, "%timestamp%", Sanitize(stamp));
  }

  /** Without a configured proxy, `%proxy%` stays in the template; with one,
      the proxy text appears wherever the template asked for it. */
  lemma ProxyPlaceholder(rev: Revision, s: Settings, code: string)
    ensures !ProxyConfigured(rev, s) ==> WithProxy(rev, s, User, code) == code
    ensures ProxyConfigured(rev, s) && Contains(code, "%proxy%") ==>
      Contains(WithProxy(rev, s, User, code), s.proxyCommand.value)
  {
    if ProxyConfigured(rev, s) && Contains(code, "%proxy%") {
      ReplaceAllInserts(code, "%proxy%", s.proxyCommand.value);
    }
  }

  /** The example template and the text before its user agent, cut at
      their '%' signs. */
  lemma ExampleTemplatePieces(ua: string)
    ensures "dl %url% -ua %useragent%" == "dl " + ("%url" + ("% -ua " + "%useragent%"))
    ensures "dl %url% -ua " + ua == "dl " + ("%url" + ("% -ua " + ua))
    ensures "dl %url% -ua " + ua == "dl " + ("%url%" + (" -ua " + ua))
  {
    assert "dl %url% -ua " == "dl " + "%url" + "% -ua ";
    assert "dl %url% -ua " == "dl " + "%url%" + " -ua ";
  }

  /** A pattern starting "%us" is found at the end only. */
  lemma UserAgentInTemplate(p: string, ua: string)
    requires |p| > 2 && p[0] == '%' && p[1] == 'u' && p[2] == 's'
    ensures ReplaceAll("dl " + ("%url" + ("% -ua " + p)), p, ua) == "dl " + ("%url" + ("% -ua " + ua))
  {
    assert p == p + [];
    ReplaceAllHead(p, [], ua);
    ReplaceAllSkipWord("% -ua ", p, p, ua, 1);
    ReplaceAllSkipWord("%url", "% -ua " + p, p, ua, 2);
    ReplaceAllSkipPlain("dl ", "%url" + ("% -ua " + p), p, ua);
  }

  /** `%useragent%` at the end of the example template. */
  lemma ExampleUserAgentStep(ua: string)
    requires '%' !in ua
    ensures ReplaceAll("dl %url% -ua %useragent%", "%useragent%", ua) == "dl %url% -ua " + ua
  {
    UserAgentInTemplate("%useragent%", ua);
    ExampleTemplatePieces(ua);
  }

  /** A pattern "%x..." with x neither 'u' nor ' ' is not found after the
      user agent is filled. */
  lemma OtherAfterUrl(ua: string, p: string, v: string)
    requires '%' !in ua
    requires |p| >= 2 && p[0] == '%' && p[1] != 'u' && p[1] != ' '
    ensures ReplaceAll("dl " + ("%url" + ("% -ua " + ua)), p, v) == "dl " + ("%url" + ("% -ua " + ua))
  {
    ReplaceAllNoChar(ua, p, v);
    ReplaceAllSkipWord("% -ua ", ua, p, v, 1);
    ReplaceAllSkipWord("%url", "% -ua " + ua, p, v, 1);
    ReplaceAllSkipPlain("dl ", "%url" + ("% -ua " + ua), p, v);
  }

  /** The example template after its user agent is filled has no other
      header placeholder. */
  lemma ExampleOtherPlaceholders(ua: string, p: string, v: string)
    requires '%' !in ua
    requires |p| >= 2 && p[0] == '%' && p[1] != 'u' && p[1] != ' '
    ensures ReplaceAll("dl %url% -ua " + ua, p, v) == "dl %url% -ua " + ua
  {
    OtherAfterUrl(ua, p, v);
    ExampleTemplatePieces(ua);
  }

  /** `%url%` of the example template, then nothing else to replace. */
  lemma ExampleTrailerSteps(url: string, ua: string, filename: string, ts: string)
    requires '%' !in ua && '%' !in url
    ensures var c := ReplaceAll("dl %url% -ua " + ua, "%url%", url);
      && c == "dl " + url + " -ua " + ua
      && ReplaceAll(ReplaceAll(c, "%filename%", filename), "%timestamp%", ts) == c
  {
    ExampleTemplatePieces(ua);
    UrlThenNothing(url, " -ua " + ua, filename, ts);
  }

  lemma UrlThenNothing(url: string, rest: string, filename: string, ts: string)
    requires '%' !in rest && '%' !in url
    ensures var c := ReplaceAll("dl " + ("%url%" + rest), "%url%", url);
      && c == "dl " + url + rest
      && ReplaceAll(ReplaceAll(c, "%filename%", filename), "%timestamp%", ts) == c
  {
    ReplaceAllSkipPlain("dl ", "%url%" + rest, "%url%", url);
    ReplaceAllHead("%url%", rest, url);
    ReplaceAllNoChar(rest, "%url%", url);
    var c := "dl " + url + rest;
    assert '%' !in c by {
      assert '%' !in "dl " + url;
    }
    ReplaceAllNoChar(c, "%filename%", filename);
    ReplaceAllNoChar(c, "%timestamp%", ts);
  }

  lemma ExampleUserHeaders(rev: Revision, d: Descriptor, h: HeaderSet)
    requires '%' !in h.userAgent
    ensures UserHeaders(rev, d, h, "dl %url% -ua %useragent%") == "dl %url% -ua " + h.userAgent
  {
    var ua := h.userAgent;
    ExampleUserAgentStep(ua);
    ExampleOtherPlaceholders(ua, "%cookie%", h.cookie);
    ExampleOtherPlaceholders(ua, "%referer%", h.referer);
    ExampleOtherPlaceholders(ua, "%origin%", OriginChain(rev, d));
    ExampleOtherPlaceholders(ua, "%tabtitle%", Sanitize(d.tab.title));
  }

  lemma ExampleHeaders(rev: Revision, s: Settings, d: Descriptor)
    requires s.headersPref
    requires FindHeader(d.headers, "user-agent").None?
    requires '%' !in s.defaultUserAgent
    ensures WithHeaders(rev, s, d, User, "dl %url% -ua %useragent%") == "dl %url% -ua " + s.defaultUserAgent
  {
    var h := HeaderValues(rev, s, d);
    assert h.userAgent == s.defaultUserAgent;
    ExampleUserHeaders(rev, d, h);
  }

  lemma ExampleTrailer(s: Settings, d: Descriptor, ua: string, stamp: string)
    requires '%' !in ua && '%' !in d.url
    ensures Trailer(s, d, User, "dl %url% -ua " + ua, stamp) == "dl " + d.url + " -ua " + ua
  {
    ExampleTrailerSteps(d.url, ua, d.filename, Sanitize(stamp));
  }

  /** The user template "dl %url% -ua %useragent%" with no captured user
      agent: the browser's default user agent is filled in. */
  lemma UserTemplateExample(rev: Revision, s: Settings, d: Descriptor, stamp: string)
    requires Resolve(rev, s, d).tool == User
    requires s.userCommand == Some("dl %url% -ua %useragent%")
    requires !s.customCommandPref && !ProxyConfigured(rev, s) && s.headersPref
    requires FindHeader(d.headers, "user-agent").None?
    requires '%' !in d.url && '%' !in s.defaultUserAgent
    ensures Synthesize(rev, s, d, stamp).text == "dl " + d.url + " -ua " + s.defaultUserAgent
  {
    var t := "dl %url% -ua %useragent%";
    assert Base(rev, s, User, d.url) == t;
    assert WithProxy(rev, s, User, WithCustom(rev, s, User, t)) == t;
    ExampleHeaders(rev, s, d);
    ExampleTrailer(s, d, s.defaultUserAgent, stamp);
    assert Synthesize(rev, s, d, stamp).text == Command(rev, s, d, User, stamp);
  }

  lemma ClipWithExtension(s: Settings, d: Descriptor)
    requires !(s.filenamePref && d.tab.title != "")
    requires d.filename == "clip.mp4"
    ensures OutputName(s, d) == "clip"
  {
    assert d.filename == "clip" + "." + "mp4";
    assert PathSafe("clip") by { assert forall i :: 0 <= i < 4 ==> !IsPathHostile("clip"[i]); }
    StemNamed(s, d, "clip", "mp4");
  }

  /** A path-safe stem before a last extension is the output name. */
  lemma StemNamed(s: Settings, d: Descriptor, n: string, e: string)
    requires !(s.filenamePref && d.tab.title != "")
    requires d.filename == n + "." + e && '.' !in e && |n| > 0 && n[0] != '.' && PathSafe(n)
    ensures OutputName(s, d) == n
  {
    NameLosesLastExtension(s, d, n, e);
    SanitizeIsSafe(n);
  }

  /** Without a title, timestamp or configured extension, "clip.mp4" gives
      the output file "clip.ts" but "clip" gives ".ts". */
  lemma FfmpegOutputFile(s: Settings, d: Descriptor, stamp: string)
    requires !s.filenamePref && !s.timestampPref && s.fileExtension == ""
    requires d.filename == "clip" || d.filename == "clip.mp4"
    ensures FfmpegTail(s, d, stamp) ==
      " -i " + Quoted(d.url) + " -c copy " + Quoted(if d.filename == "clip" then ".ts" else "clip.ts")
  {
    ClipNamed(s, d);
    if d.filename == "clip" {
      FfmpegTailNamed(s, d, stamp, "");
      assert "" + ".ts" == ".ts";
    } else {
      FfmpegTailNamed(s, d, stamp, "clip");
      assert "clip" + ".ts" == "clip.ts";
    }
  }

  /** As written, "clip" gives the empty output name and "clip.mp4" gives
      "clip"; the intended name is "clip" for both. */
  lemma ClipNamed(s: Settings, d: Descriptor)
    requires !s.filenamePref
    requires d.filename == "clip" || d.filename == "clip.mp4"
    ensures OutputName(s, d) == (if d.filename == "clip" then "" else "clip")
    ensures OutputNameCorrected(s, d) == "clip"
  {
    assert PathSafe("clip") by { assert forall i :: 0 <= i < 4 ==> !IsPathHostile("clip"[i]); }
    SanitizeIsSafe("clip");
    if d.filename == "clip" {
      assert '.' !in d.filename;
      DotlessNameEmptied(s, d);
    } else {
      ClipWithExtension(s, d);
      assert '.' in d.filename by { assert d.filename[4] == '.'; }
      OutputNamesAgree(s, d);
    }
  }

  lemma FfmpegTailNamed(s: Settings, d: Descriptor, stamp: string, out: string)
    requires !s.timestampPref && s.fileExtension == "" && OutputName(s, d) == out
    ensures FfmpegTail(s, d, stamp) == " -i " + Quoted(d.url) + " -c copy " + Quoted(out + ".ts")
  {
    assert out + "." + "ts" == out + ".ts";
  }

  // ---------------------------------------------------------------------
  // Properties of a batch

  /** A batch of one is the single entry's text. */
  lemma BatchOfOne(rev: Revision, s: Settings, d: Descriptor, stamp: string)
    ensures CopyAll(rev, s, [d], [stamp]).text == Synthesize(rev, s, d, stamp).text
    ensures CopyAll(rev, s, [d], [stamp]).degraded == Synthesize(rev, s, d, stamp).degraded
  {
    var copies := SynthesizeAll(rev, s, [d], [stamp]);
    assert Map(copies, (c: Copied) => c.text) == [Synthesize(rev, s, d, stamp).text];
  }

  /** With the flag raised by any entry, the earlier incompatible entry is
      reported; the copied text is unchanged. */
  lemma ReportedFlagsEarlierEntry(rev: Revision, s: Settings, a: Descriptor, b: Descriptor, sa: string, sb: string)
    requires Resolve(rev, s, a).degraded && !Resolve(rev, s, b).degraded
    ensures CopyAllReported(rev, s, [a, b], [sa, sb]).degraded
    ensures CopyAllReported(rev, s, [a, b], [sa, sb]).text == CopyAll(rev, s, [a, b], [sa, sb]).text
  {
  }

  /** An incompatible entry earlier in the batch does not flag it. */
  lemma BatchFlagIsLast(rev: Revision, s: Settings, a: Descriptor, b: Descriptor, sa: string, sb: string)
    requires Resolve(rev, s, a).degraded && !Resolve(rev, s, b).degraded
    ensures !CopyAll(rev, s, [a, b], [sa, sb]).degraded
    ensures CopyAll(rev, s, [a, b], [sa, sb]).text ==
      a.url + s.newline + Synthesize(rev, s, b, sb).text
  {
    var copies := SynthesizeAll(rev, s, [a, b], [sa, sb]);
    var texts := Map(copies, (c: Copied) => c.text);
    assert texts == [a.url, Synthesize(rev, s, b, sb).text];
    JoinTwo(a.url, Synthesize(rev, s, b, sb).text, s.newline);
  }
}
