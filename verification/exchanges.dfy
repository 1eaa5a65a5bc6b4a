/** The records that flow through the extension: one observed network
    exchange (`requestDetails` of the webRequest listeners), the tab data
    looked up for it, and the descriptor the aggregator stores.

    Optional JavaScript strings (`documentUrl`, `originUrl`, `initiator`,
    the tab title and URL) are modelled as strings where "" stands for an
    absent value: the source only ever tests them for truthiness or chains
    them with `||`, and "" is falsy in JavaScript as well. */
module Exchanges {
  import opened Wrappers
  import opened Text
  import opened Lists
  import opened Rules

  datatype Header = Header(name: string, value: string)

  /** `headers.find((h) => h.name.toLowerCase() === name)` for a lower-case
      `name`. */
  function FindHeader(hs: seq<Header>, name: string): (r: Option<Header>)
    ensures r.Some? ==> r.value in hs && Lower(r.value.name) == name
    ensures r.None? ==> forall i :: 0 <= i < |hs| ==> Lower(hs[i].name) != name
  {
    Find(hs, (h: Header) => Lower(h.name) == name)
  }

  /** The value of the first header called `name`, or "" when there is none. */
  function HeaderValue(hs: seq<Header>, name: string): string
  {
    match FindHeader(hs, name)
    case Some(h) => h.value
    case None => ""
  }

  datatype Exchange = Exchange(
    url: string,
    pathname: string,
    hostname: string,
    requestId: string,
    tabId: int,
    timeStamp: int,
    requestHeaders: Option<seq<Header>>,
    responseHeaders: Option<seq<Header>>,
    documentUrl: string,
    originUrl: string,
    initiator: string)

  /** `requestDetails.requestHeaders || requestDetails.responseHeaders`: the
      listener that fired decides which list is present; an empty list is
      still truthy. */
  function ObservedHeaders(ex: Exchange): (r: Option<seq<Header>>)
    ensures ex.requestHeaders.Some? ==> r == ex.requestHeaders
    ensures ex.requestHeaders.None? ==> r == ex.responseHeaders
  {
    if ex.requestHeaders.Some? then ex.requestHeaders else ex.responseHeaders
  }

  /** The title, URL and private-window flag of the tab an exchange came
      from; `NoTab` is the record stored when the tab lookup found nothing,
      whose flag is then undefined rather than false. */
  datatype TabInfo = TabInfo(title: string, url: string, incognito: Option<bool>)

  const NoTab := TabInfo("", "", None)

  /** A stored detection (`newRequestDetails` of src/js/background.js). */
  datatype Descriptor = Descriptor(
    requestId: string,
    url: string,
    typeName: string,
    category: Category,
    filename: string,
    hostname: string,
    headers: seq<Header>,
    tab: TabInfo,
    documentUrl: string,
    originUrl: string,
    initiator: string,
    tabId: int,
    timeStamp: int)

  /** `a || b || c ...` over optional strings: the first non-empty one. */
  function FirstPresent(xs: seq<string>): (r: string)
    ensures r == "" <==> forall i :: 0 <= i < |xs| ==> xs[i] == ""
    ensures r != "" ==> exists i :: 0 <= i < |xs| && xs[i] == r && forall j :: 0 <= j < i ==> xs[j] == ""
  {
    if xs == [] then ""
    else if xs[0] != "" then xs[0]
    else FirstPresent(xs[1..])
  }

  predicate UrlIsLive(live: seq<Descriptor>, url: string) {
    exists i :: 0 <= i < |live| && live[i].url == url
  }

  /** No two stored descriptors share a URL. */
  predicate UrlsUnique(live: seq<Descriptor>) {
    KeysUnique(live, (d: Descriptor) => d.url)
  }
}
