/** The resource classifier of src/js/background.js (`urlFilter`): a
    first-match lookup of the URL pathname and of the content-type header in
    the rule table, followed by the acceptance test (deduplication and the
    user's filter preferences). The classifier is pure; the aggregator
    applies its verdict. */
module Classifier {
  import opened Wrappers
  import opened Text
  import opened Lists
  import opened Rules
  import opened Exchanges
  import JsNumbers

  /** The preferences `urlFilter` reads (loaded by `updateVars`).
      `fileSizeAmount` is the stored text of the size box: `None` when
      nothing is stored. */
  datatype Prefs = Prefs(
    customExtPref: bool,
    customExt: seq<string>,
    customCtPref: bool,
    customCt: seq<string>,
    subtitlePref: bool,
    filePref: bool,
    fileSizePref: bool,
    fileSizeAmount: Option<string>,
    manifestPref: bool,
    blacklistPref: bool,
    blacklist: seq<string>)

  /** Every filter switched off. */
  function OpenPrefs(): Prefs {
    Prefs(false, [], false, [], false, false, false, None, false, false, [])
  }

  // ---------------------------------------------------------------------
  // Verdict

  /** Some extension pattern of the list occurs as `"." + pattern` in the
      lower-cased pathname. */
  predicate ExtHit(exts: seq<string>, path: string) {
    Any(exts, (fe: string) => Contains(path, "." + fe))
  }

  predicate CustomExtHit(p: Prefs, path: string) {
    p.customExtPref && ExtHit(p.customExt, path)
  }

  /** Extension verdict: the custom rule when enabled and hit, otherwise the
      first table rule one of whose extensions occurs in the pathname. */
  function ExtVerdict(p: Prefs, pathname: string): (r: Option<Rule>)
    ensures CustomExtHit(p, Lower(pathname)) ==> r == Some(CustomRule(p.customExt, p.customCt))
    ensures !CustomExtHit(p, Lower(pathname)) && r.Some? ==>
      exists i :: 0 <= i < |Supported| && r.value == Supported[i] && ExtHit(Supported[i].ext, Lower(pathname)) &&
        forall j :: 0 <= j < i ==> !ExtHit(Supported[j].ext, Lower(pathname))
    ensures !CustomExtHit(p, Lower(pathname)) && r.None? ==>
      forall i :: 0 <= i < |Supported| ==> !ExtHit(Supported[i].ext, Lower(pathname))
  {
    var path := Lower(pathname);
    if CustomExtHit(p, path) then Some(CustomRule(p.customExt, p.customCt))
    else Find(Supported, (r: Rule) => ExtHit(r.ext, path))
  }

  /** The value of the exchange's content-type header, "" when absent. */
  function ContentType(ex: Exchange): string {
    match ObservedHeaders(ex)
    case Some(hs) => HeaderValue(hs, "content-type")
    case None => ""
  }

  predicate CustomCtHit(p: Prefs, value: string) {
    p.customCtPref && Any(p.customCt, (fe: string) => Contains(Lower(value), Lower(fe)))
  }

  /** A table rule lists the header value, compared case-insensitively. */
  predicate CtHit(r: Rule, value: string) {
    Any(r.ct, (fe: string) => Lower(value) == Lower(fe))
  }

  /** Content-type verdict: none for a missing or empty header; the custom
      rule on a substring hit; otherwise the first table rule listing the
      value. */
  function CtVerdict(p: Prefs, ex: Exchange): (r: Option<Rule>)
    ensures ContentType(ex) == "" ==> r.None?
    ensures ContentType(ex) != "" && CustomCtHit(p, ContentType(ex)) ==>
      r == Some(CustomRule(p.customExt, p.customCt))
    ensures ContentType(ex) != "" && !CustomCtHit(p, ContentType(ex)) ==>
      r == Find(Supported, (r: Rule) => CtHit(r, ContentType(ex)))
  {
    var v := ContentType(ex);
    if v == "" then None
    else if CustomCtHit(p, v) then Some(CustomRule(p.customExt, p.customCt))
    else Find(Supported, (r: Rule) => CtHit(r, v))
  }

  /** `head || ext`: a content-type verdict wins over an extension verdict. */
  function Verdict(p: Prefs, ex: Exchange): (r: Option<Rule>)
    ensures CtVerdict(p, ex).Some? ==> r == CtVerdict(p, ex)
    ensures CtVerdict(p, ex).None? ==> r == ExtVerdict(p, ex.pathname)
  {
    var head := CtVerdict(p, ex);
    if head.Some? then head else ExtVerdict(p, ex.pathname)
  }

  // ---------------------------------------------------------------------
  // Filters

  /** `isNaN(fileSizeAmount)`: the stored text converted to a number; a
      missing amount is `null`, which converts to 0. */
  predicate AmountIsNaN(amount: Option<string>) {
    amount.Some? && JsNumbers.ToNumber(amount.value).NaN?
  }

  /** `Math.floor(length / 1024 / 1024) >= amount`, both texts converted
      to numbers by JavaScript's rules. */
  predicate LengthReaches(len: string, amount: string) {
    var mib := JsNumbers.DivideBy(JsNumbers.DivideBy(JsNumbers.ToNumber(len), 1024), 1024);
    JsNumbers.AtLeast(JsNumbers.Floor(mib), JsNumbers.ToNumber(amount))
  }

  const MiB := 1048576

  /** The minimum-size clause: off, or a non-numeric amount, or a non-empty
      amount with a non-stream verdict whose non-empty content-length, in
      whole MiB, reaches it. */
  predicate SizePasses(p: Prefs, category: Category, hs: Option<seq<Header>>) {
    || !p.fileSizePref
    || AmountIsNaN(p.fileSizeAmount)
    || (&& p.fileSizeAmount.Some?
        && p.fileSizeAmount.value != ""
        && category != Stream
        && hs.Some?
        && HeaderValue(hs.value, "content-length") != ""
        && LengthReaches(HeaderValue(hs.value, "content-length"), p.fileSizeAmount.value))
  }

  /** One blacklist entry hits the url, the first present referring URL,
      the content type or the resolved type name, case-insensitively. */
  predicate EntryHits(entry: string, ex: Exchange, ctValue: string, typeName: string) {
    var e := Lower(entry);
    || Contains(Lower(ex.url), e)
    || Contains(Lower(FirstPresent([ex.documentUrl, ex.originUrl, ex.initiator])), e)
    || Contains(Lower(ctValue), e)
    || Contains(Lower(typeName), e)
  }

  predicate Blacklisted(p: Prefs, ex: Exchange, typeName: string) {
    Any(p.blacklist, (entry: string) => EntryHits(entry, ex, ContentType(ex), typeName))
  }

  /** The filter conjunction applied to a verdict. */
  predicate FiltersPass(p: Prefs, ex: Exchange, r: Rule) {
    && (!p.subtitlePref || r.category != Subtitles)
    && (!p.filePref || r.category != Files)
    && SizePasses(p, r.category, ObservedHeaders(ex))
    && (!p.manifestPref || r.category != Stream)
    && (!p.blacklistPref || !Blacklisted(p, ex, r.typeName))
  }

  /** `urlFilter`: the rule the exchange is accepted under, or `None`. An
      accepted exchange has a verdict, a URL not yet stored, a request id
      not in flight and a real tab. */
  function UrlFilter(p: Prefs, live: seq<Descriptor>, queue: seq<string>, ex: Exchange): (r: Option<Rule>)
    ensures r.Some? ==> Verdict(p, ex) == r
    ensures r.Some? ==> !UrlIsLive(live, ex.url) && ex.requestId !in queue && ex.tabId != -1
    ensures r.Some? ==> FiltersPass(p, ex, r.value)
    ensures r.None? ==> (Verdict(p, ex).None? || UrlIsLive(live, ex.url) || ex.requestId in queue ||
                         ex.tabId == -1 || !FiltersPass(p, ex, Verdict(p, ex).value))
    ensures r.Some? ==> r.value in Supported || r.value == CustomRule(p.customExt, p.customCt)
  {
    var e := Verdict(p, ex);
    if && e.Some?
       && !UrlIsLive(live, ex.url)
       && ex.requestId !in queue
       && ex.tabId != -1
       && FiltersPass(p, ex, e.value)
    then e
    else None
  }

  // ---------------------------------------------------------------------
  // Properties

  /** A pathname containing ".m3u8" is HLS whatever else it contains (for
      instance ".ts"): HLS is the first table row. */
  lemma M3u8IsHls(p: Prefs, pathname: string)
    requires !CustomExtHit(p, Lower(pathname))
    requires Contains(Lower(pathname), ".m3u8")
    ensures ExtVerdict(p, pathname) == Some(Supported[HlsIndex])
    ensures Supported[HlsIndex].typeName == "HLS" && Supported[HlsIndex].category == Stream
  {
    var path := Lower(pathname);
    HlsRow();
    FirstExtHit(Supported[HlsIndex].ext, path);
    FindHead(Supported, (r: Rule) => ExtHit(r.ext, path));
  }

  /** A pathname containing the first listed extension hits the list. */
  lemma FirstExtHit(exts: seq<string>, path: string)
    requires |exts| > 0 && Contains(path, "." + exts[0])
    ensures ExtHit(exts, path)
  {
  }

  /** The DASH pattern "json?base64_init=1" contains '?', which a URL
      pathname never does, so that pattern can never fire. */
  lemma DashJsonPatternInert(pathname: string)
    requires '?' !in pathname
    ensures !Contains(Lower(pathname), "." + Supported[DashIndex].ext[1])
  {
    var path := Lower(pathname);
    var pat := "." + Supported[DashIndex].ext[1];
    assert pat[5] == '?';
    forall k | 0 <= k < |path| ensures path[k] != '?' {
      assert pathname[k] in pathname;
    }
    if Contains(path, pat) {
      ContainsChars(path, pat, '?');
    }
  }

  /** Built-in content types are compared by lowering the header value
      alone, because the table's entries are already lower case. */
  lemma BuiltinCtIsMembership(value: string)
    ensures Find(Supported, (r: Rule) => CtHit(r, value)) ==
            Find(Supported, (r: Rule) => Lower(value) in r.ct)
  {
    ContentTypesAreLower();
    forall i | 0 <= i < |Supported|
      ensures CtHit(Supported[i], value) == (Lower(value) in Supported[i].ct)
    {
      var cts := Supported[i].ct;
      if Lower(value) in cts {
        var k :| 0 <= k < |cts| && cts[k] == Lower(value);
        assert Lower(value) == Lower(cts[k]);
      }
      if CtHit(Supported[i], value) {
        var k :| 0 <= k < |cts| && Lower(value) == Lower(cts[k]);
        assert cts[k] == Lower(value);
      }
    }
    FindAgrees(Supported, (r: Rule) => CtHit(r, value), (r: Rule) => Lower(value) in r.ct);
  }

  /** MSS has no content type, so an MSS verdict always comes from the
      ".ism/manifest" extension. */
  lemma MssOnlyByExtension(p: Prefs, ex: Exchange)
    requires Verdict(p, ex).Some? && Verdict(p, ex).value.typeName == "MSS"
    ensures CtVerdict(p, ex).None?
    ensures Contains(Lower(ex.pathname), ".ism/manifest")
  {
    CtVerdictNeverMss(p, ex);
    var path := Lower(ex.pathname);
    var i :| 0 <= i < |Supported| && Supported[i] == Verdict(p, ex).value && ExtHit(Supported[i].ext, path);
    MssRow(i);
    MssHasNoContentType();
    ExtHitSingle(Supported[MssIndex].ext, path);
  }

  lemma ExtHitSingle(exts: seq<string>, path: string)
    requires |exts| == 1 && ExtHit(exts, path)
    ensures Contains(path, "." + exts[0])
  {
  }

  /** No content type, built-in or custom, yields the MSS rule. */
  lemma CtVerdictNeverMss(p: Prefs, ex: Exchange)
    ensures CtVerdict(p, ex).Some? ==> CtVerdict(p, ex).value.typeName != "MSS"
  {
    var v := ContentType(ex);
    if v != "" && !CustomCtHit(p, v) && CtVerdict(p, ex).Some? {
      var i :| 0 <= i < |Supported| && Supported[i] == CtVerdict(p, ex).value && CtHit(Supported[i], v);
      MssHasNoContentType();
      assert i != MssIndex;
      if Supported[i].typeName == "MSS" {
        MssRow(i);
      }
    }
  }

  /** A second observation of a request id still in flight is rejected: the
      classifier never merges headers into an earlier detection. */
  lemma QueuedIdRejected(p: Prefs, live: seq<Descriptor>, queue: seq<string>, ex: Exchange)
    requires ex.requestId in queue
    ensures UrlFilter(p, live, queue, ex).None?
  {
  }

  /** Exchanges not tied to a tab (`tabId` -1) are never accepted. */
  lemma BackgroundRequestRejected(p: Prefs, live: seq<Descriptor>, queue: seq<string>, ex: Exchange)
    requires ex.tabId == -1
    ensures UrlFilter(p, live, queue, ex).None?
  {
  }

  /** An exchange no rule classifies is never accepted. */
  lemma UnclassifiedRejected(p: Prefs, live: seq<Descriptor>, queue: seq<string>, ex: Exchange)
    requires Verdict(p, ex).None?
    ensures UrlFilter(p, live, queue, ex).None?
  {
  }

  /** A URL already in the live list is not listed again, whatever request
      carries it. */
  lemma ListedUrlRejected(p: Prefs, live: seq<Descriptor>, queue: seq<string>, ex: Exchange, i: nat)
    requires i < |live| && live[i].url == ex.url
    ensures UrlFilter(p, live, queue, ex).None?
  {
  }

  /** Each category switch rejects its own category: subtitles, files, and
      streaming manifests. */
  lemma CategorySwitchesReject(p: Prefs, live: seq<Descriptor>, queue: seq<string>, ex: Exchange)
    requires Verdict(p, ex).Some?
    ensures p.subtitlePref && Verdict(p, ex).value.category == Subtitles ==> UrlFilter(p, live, queue, ex).None?
    ensures p.filePref && Verdict(p, ex).value.category == Files ==> UrlFilter(p, live, queue, ex).None?
    ensures p.manifestPref && Verdict(p, ex).value.category == Stream ==> UrlFilter(p, live, queue, ex).None?
  {
  }

  /** With the size filter on, a missing or empty amount rejects every
      exchange; with a numeric amount, an accepted exchange is no stream and
      carries a content-length whose whole MiB reach the amount. */
  lemma SizeFilter(p: Prefs, live: seq<Descriptor>, queue: seq<string>, ex: Exchange)
    requires p.fileSizePref
    ensures p.fileSizeAmount.None? ==> UrlFilter(p, live, queue, ex).None?
    ensures p.fileSizeAmount == Some("") ==> UrlFilter(p, live, queue, ex).None?
    ensures !AmountIsNaN(p.fileSizeAmount) && UrlFilter(p, live, queue, ex).Some? ==>
      var hs := ObservedHeaders(ex);
      && UrlFilter(p, live, queue, ex).value.category != Stream
      && hs.Some?
      && HeaderValue(hs.value, "content-length") != ""
      && LengthReaches(HeaderValue(hs.value, "content-length"), p.fileSizeAmount.value)
  {
    var r := UrlFilter(p, live, queue, ex);
    if p.fileSizeAmount.Some? && p.fileSizeAmount.value == [] {
      JsNumbers.BlankIsZero(p.fileSizeAmount.value);
      assert !AmountIsNaN(p.fileSizeAmount);
    }
    if r.Some? {
      assert SizePasses(p, r.value.category, ObservedHeaders(ex));
    }
  }

  /** For a content-length of whole bytes, the clause compares the whole
      MiB with the amount. */
  lemma WholeMiB(len: string)
    requires JsNumbers.IsDigits(len) && len != []
    ensures var n := JsNumbers.RadixValue(len, 10);
      JsNumbers.Floor(JsNumbers.DivideBy(JsNumbers.DivideBy(JsNumbers.ToNumber(len), 1024), 1024)) ==
      JsNumbers.Finite((n / MiB) as real)
  {
    JsNumbers.DigitsAreDecimal(len);
    var n := JsNumbers.RadixValue(len, 10);
    FloorOfQuotient(n);
  }

  lemma FloorOfQuotient(n: nat)
    ensures (n as real / 1024.0 / 1024.0).Floor == n / MiB
  {
    var q := n / MiB;
    var x := n as real / 1024.0 / 1024.0;
    assert x == n as real / MiB as real;
    assert q as real <= x < q as real + 1.0;
  }

  /** A whole-byte length reaches a finite amount when its whole MiB are at
      least that amount. */
  lemma ReachesFinite(len: string, amount: string, a: real)
    requires JsNumbers.IsDigits(len) && len != []
    requires JsNumbers.ToNumber(amount) == JsNumbers.Finite(a)
    ensures LengthReaches(len, amount) <==> (JsNumbers.RadixValue(len, 10) / MiB) as real >= a
  {
    WholeMiB(len);
  }

  /** Amounts are numbers, not digit strings: "1.5" needs two whole MiB. */
  lemma FractionalAmount(len: string, amount: string)
    requires JsNumbers.IsDigits(len) && len != [] && amount == "1.5"
    ensures LengthReaches(len, amount) <==> JsNumbers.RadixValue(len, 10) >= 2 * MiB
  {
    var n := JsNumbers.RadixValue(len, 10);
    JsNumbers.FractionLiteral(amount);
    ReachesFinite(len, amount, 1.5);
    assert (n / MiB) as real >= 1.5 <==> n / MiB >= 2;
  }

  /** "1e3" needs a thousand whole MiB. */
  lemma ExponentAmount(len: string, amount: string)
    requires JsNumbers.IsDigits(len) && len != [] && amount == "1e3"
    ensures LengthReaches(len, amount) <==> JsNumbers.RadixValue(len, 10) >= 1000 * MiB
  {
    var n := JsNumbers.RadixValue(len, 10);
    JsNumbers.ExponentLiteral(amount);
    ReachesFinite(len, amount, 1000.0);
    assert (n / MiB) as real >= 1000.0 <==> n / MiB >= 1000;
  }

  /** "-1" is reached by every whole-byte length. */
  lemma NegativeAmount(len: string, amount: string)
    requires JsNumbers.IsDigits(len) && len != [] && amount == "-1"
    ensures LengthReaches(len, amount)
  {
    JsNumbers.NegativeLiteral(amount);
    ReachesFinite(len, amount, -1.0);
  }

  /** With the amount "1.5", an exchange without a content-length is
      rejected, like every exchange whose length stays under two MiB. */
  lemma FractionalAmountNeedsLength(p: Prefs, live: seq<Descriptor>, queue: seq<string>, ex: Exchange)
    requires p.fileSizePref && p.fileSizeAmount == Some("1.5")
    requires ObservedHeaders(ex).None? || HeaderValue(ObservedHeaders(ex).value, "content-length") == ""
    ensures UrlFilter(p, live, queue, ex).None?
  {
    JsNumbers.FractionLiteral("1.5");
  }

  /** A blacklist entry found in the referring document URL rejects the
      exchange, whatever its extension says. */
  lemma BlacklistedDocumentRejected(p: Prefs, live: seq<Descriptor>, queue: seq<string>, ex: Exchange, entry: string)
    requires p.blacklistPref && entry in p.blacklist
    requires ex.documentUrl != "" && Contains(Lower(ex.documentUrl), Lower(entry))
    ensures UrlFilter(p, live, queue, ex).None?
  {
    assert FirstPresent([ex.documentUrl, ex.originUrl, ex.initiator]) == ex.documentUrl;
    var k :| 0 <= k < |p.blacklist| && p.blacklist[k] == entry;
    var e := Verdict(p, ex);
    if e.Some? {
      assert EntryHits(p.blacklist[k], ex, ContentType(ex), e.value.typeName);
      assert Blacklisted(p, ex, e.value.typeName);
    }
  }

  /** With every filter off, a classified exchange with a new URL, an id not
      in flight and a real tab is accepted under its verdict. */
  lemma OpenFiltersAccept(live: seq<Descriptor>, queue: seq<string>, ex: Exchange)
    requires Verdict(OpenPrefs(), ex).Some?
    requires !UrlIsLive(live, ex.url) && ex.requestId !in queue && ex.tabId != -1
    ensures UrlFilter(OpenPrefs(), live, queue, ex) == Verdict(OpenPrefs(), ex)
  {
  }

  /** Master playlist example: "/abc/master.m3u8" with only a User-Agent
      request header classifies as an HLS stream. */
  lemma MasterPlaylistIsHls(ex: Exchange)
    requires ex.pathname == "/abc/master.m3u8"
    requires ex.requestHeaders == Some([Header("User-Agent", "UA1")])
    ensures Verdict(OpenPrefs(), ex) == Some(Supported[HlsIndex])
  {
    NoContentType(ex);
    MasterDir();
    PathHasM3u8("/abc/master", ex.pathname);
    M3u8IsHls(OpenPrefs(), ex.pathname);
  }

  lemma NoContentType(ex: Exchange)
    requires ex.requestHeaders == Some([Header("User-Agent", "UA1")])
    ensures ContentType(ex) == ""
  {
    var hs := [Header("User-Agent", "UA1")];
    assert Lower(hs[0].name)[0] == 'u';
    assert FindHeader(hs, "content-type").None?;
  }

  lemma MasterDir()
    ensures IsLower("/abc/master") && "/abc/master" + ".m3u8" == "/abc/master.m3u8"
  {
  }

  /** A lower-case directory followed by ".m3u8" contains ".m3u8" after
      lower-casing. */
  lemma PathHasM3u8(dir: string, pathname: string)
    requires IsLower(dir) && pathname == dir + ".m3u8"
    ensures Contains(Lower(pathname), ".m3u8")
  {
    var ext := ".m3u8";
    assert IsLower(ext);
    forall i | 0 <= i < |pathname| ensures !IsAsciiUpper(pathname[i]) {
      if i < |dir| {
        assert pathname[i] == dir[i];
      } else {
        assert pathname[i] == ext[i - |dir|];
      }
    }
    LowerOfLower(pathname);
    ContainsInfix(dir, ext, "");
    assert dir + ext + "" == pathname;
  }
}
