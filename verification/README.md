# stream-detector: detection and copy core in Dafny

stream-detector is a browser extension that watches the network traffic of
the user's tabs and lists the streaming resources it sees: HLS and DASH
playlists, MSS manifests, subtitle files and plain media files. The user can
copy each entry as a command line for a downloader tool, such as ffmpeg,
streamlink, youtube-dl, yt-dlp, hlsdl, N_m3u8DL-CLI or a Kodi URL, or as a
template of their own.

This project models the core of that extension as pure Dafny functions over
immutable data and proves properties of it.

- **`Rules`** holds the table of supported resource types and the user's
  custom type (`src/js/components/supported.js`).
- **`Classifier`** models `urlFilter`. It turns one observed HTTP exchange
  into a verdict, either from the path's extension or from the
  `Content-Type` header. It then applies the acceptance filters: URL
  already listed, request already queued, background tab, subtitles, files,
  size, manifests and the blacklist.
- **`Aggregator`** models what `addURL` does with an accepted exchange in
  `src/js/background.js`:
  - it derives a file name;
  - it either starts an automatic download or appends a descriptor;
  - the debounced flush then writes the list, sets the badge, splices the
    in-flight queue as the code does, and sends one notification for the
    whole burst. The splice does not remove exactly the flushed ids (see
    Findings).
  The module also models `deleteURL`, the startup restore and the "reset"
  message. The version-triggered clear of `src/js/background.js` is switched
  off there by a constant and is not modelled for that revision.
- **`Commands`** models `copyURL` of `src/js/popup.js` and of the older
  `content/popup.js`. It covers:
  - the compatibility matrix and the fall-back to the bare URL;
  - the base token, custom arguments, proxy and header arguments of each
    tool, in that order;
  - the output file name and each tool's trailer;
  - user-template placeholder substitution;
  - a batch of entries.
- **`ListView`** models the selection made by `createList`: this tab, all
  tabs or previous sessions, a text filter, and newest first. It also
  models which rows "copy all" and "clear list" act on, and what a click on
  an entry does.
- **`PublicBackground`**, **`LegacyBackground`** and **`LegacyPopup`** model
  the older revisions. These are `public/background.js`, the first
  `background.js` and `popup/popup.js`.
- **`Text`**, **`Lists`**, **`UriComponent`**, **`Versions`**, **`JsNumbers`**,
  **`Exchanges`** and **`Wrappers`** model the JavaScript built-ins the core
  relies on:
  - `toLowerCase`, `indexOf`, `lastIndexOf`, `slice`, `split` and `join`;
  - `replace` with a global pattern, and with a plain string;
  - `filter`, `find`, `map` and `reverse`;
  - `encodeURIComponent`;
  - the version comparison of `public/background.js`;
  - `Number` conversion of strings, `Math.floor` and `>=` on numbers;
  - header lookup.

Conventions used throughout:
- Absent optional strings are "".
- Stored settings that may be missing are an `Option`.
- The browser's side effects (badge, notification, download) are returned
  as a list of effect values, instead of being performed.

Where the code differs from what a reader might expect, the model follows
the code:
- A second observation of the same request is not merged into the existing
  entry: the queue check rejects it (`Classifier.QueuedIdRejected`).
- Copying a batch flags it as incompatible only when its last entry fell
  back to its URL (see Findings).
- In `public/background.js` every accepted exchange is written and notified
  on its own (`PublicBackground.NoBatching`).
- A dot-less file name becomes an empty output name (see Findings).

## Model

| member | source | states |
|---|---|---|
| Text.Lower | src/js/background.js:108 | lower-casing keeps the length and maps each character through the ASCII lower-case map, so only upper-case letters change |
| Text.LowerIsLower | src/js/background.js:108-112 | a lower-cased text has no upper-case letter, and lower-casing it again changes nothing |
| Text.IndexOf | src/js/popup.js:344 | -1 exactly when the pattern does not occur; otherwise the pattern occurs there and at no earlier position |
| Text.LastIndexOf | src/js/background.js:190 | -1 exactly when the pattern does not occur; otherwise the pattern occurs there and at no later position |
| Text.LastIndexOfChar | src/js/background.js:194-195 | the last index of a character holds that character and none follows it; -1 exactly when the character is absent |
| Text.IndexOfChar | src/js/popup.js:344 | the first index of a character holds that character and none precedes it; -1 exactly when the character is absent |
| Text.JsSlice | src/js/background.js:190 | with in-range bounds, slicing is the sub-sequence between them; it is never longer than the text |
| Text.AfterLast | background.js:37-45 | the text after the last occurrence of a character is a suffix that does not contain that character |
| Text.AfterLastAt | background.js:37-45 | the part after a separator that is not followed by another separator is what remains after that separator |
| Text.BeforeLastAt | background.js:37-45 | the part before the last separator is everything up to it |
| Text.ReplaceAllAbsent | src/js/popup.js:402-404 | a global replace of a pattern that does not occur leaves the text unchanged |
| Text.ReplaceAllInserts | src/js/popup.js:402-404 | a global replace of a pattern that occurs puts the replacement into the text |
| Text.ReplaceAllChar | src/js/popup.js:195 | replacing every `"` with `'` keeps the length, changes exactly the double quotes, and leaves none |
| Text.ReplaceAllHead | src/js/popup.js:402 | a text starting with the pattern starts with the replacement after a global replace |
| Text.ReplaceFirstAbsent | popup/popup.js:159 | a plain-string replace of an absent pattern leaves the text unchanged |
| Text.ReplaceFirstShape | popup/popup.js:159 | a plain-string replace rewrites the first occurrence only: the text is a + p + b with no p in a, and becomes a + v + b |
| Text.Sanitize | src/js/popup.js:353 | each path-hostile character (slash, backslash, question mark, percent, star, colon, pipe, double quote, angle brackets) becomes an underscore; every other character and the length are kept |
| Text.SanitizeIsSafe | src/js/popup.js:353 | a sanitized name holds no path-hostile character, and a safe name is left as it is |
| Text.SanitizeName | src/js/background.js:211-212 | the download path is sanitized character by character with the same length |
| Text.Split | src/js/popup.js:346 | splitting gives at least one part, and no part contains the separator |
| Text.JoinSplit | src/js/popup.js:346-348 | joining the parts of a split with the same separator gives back the text |
| Text.JoinSnoc | src/js/popup.js:419 | joining with one more part appends the separator and that part |
| Text.SplitDropLast | src/js/popup.js:346-348 | dropping the last split part and re-joining gives the text before the last separator, and the dropped part is the text after it |
| Text.StrLessIrreflexive | public/background.js:180-182 | no text is smaller than itself in the string order |
| Lists.Filter | src/js/background.js:313-318 | filtering keeps exactly the members that pass the test, and never lengthens the list |
| Lists.FilterConcat | src/js/background.js:363-375 | filtering two lists joined together is filtering each list and joining the results, in the same order |
| Lists.FilterIdempotent | src/js/background.js:313-318 | filtering twice with the same test is filtering once |
| Lists.FilterKeepsAll | src/js/background.js:313-318 | a filter every member passes returns the list unchanged |
| Lists.FilterDropsAll | src/js/background.js:313-318 | a filter no member passes returns the empty list |
| Lists.FilterFilter | src/js/background.js:367-375 | filtering by one test and then by another is filtering by both |
| Lists.AppendKeysUnique | src/js/background.js:148 | appending an element whose key is new keeps keys unique |
| Lists.FilterKeysUnique | src/js/background.js:313-318 | filtering a list with unique keys keeps them unique |
| Lists.Map | src/js/background.js:280-281 | mapping keeps the length and applies the function at every position |
| Lists.FindFirst | src/js/background.js:115-117 | no index exactly when no element passes; otherwise the index of the first element that passes |
| Lists.Find | src/js/background.js:115-117 | nothing exactly when no element passes; otherwise an element that passes with no passing element before it |
| Lists.FindAgrees | src/js/background.js:135-137 | two tests that agree on every element find the same element |
| Lists.FindHead | src/js/background.js:115-117 | a passing head is the element found |
| Lists.Reverse | src/js/popup.js:634 | reversing keeps the length and puts the last element first |
| UriComponent.Utf8 | src/js/popup.js:212 | a character encodes to 1 to 4 bytes, and an ASCII character to itself |
| UriComponent.PercentByte | src/js/popup.js:212 | a byte escapes to `%` and two upper-case hex digits |
| UriComponent.HexRoundTrip | src/js/popup.js:212 | the hex digit of a nibble reads back as that nibble |
| UriComponent.Encode | src/js/popup.js:212 | an encoded component holds only unreserved characters and escape characters |
| UriComponent.EncodedIsInert | src/js/popup.js:249-252 | an encoded value holds no double quote, pipe, ampersand, space or equals sign, so it cannot break the Kodi or header syntax around it |
| UriComponent.DecodeEncode | src/js/popup.js:212 | percent-decoding an encoded ASCII text gives back the text |
| Versions.Part | public/background.js:180-182 | the i-th dot-separated part of a version exists exactly when there are more than i parts, and it holds no dot |
| Versions.VersionParts | public/background.js:180-182 | the first two parts of "M.N…" are M and N |
| Versions.ResetByParts | public/background.js:178-187 | the stored list is reset exactly when the stored major is smaller as a string, or the majors are equal and the stored minor is smaller; equal versions never reset |
| Versions.TextualComparison | public/background.js:180-182 | parts compare as text: going from "9.0" to "10.0" does not reset, going from "1.2" to "2.0" does |
| Versions.SameVersionKept | background.js:172-179 | an unchanged version never clears the stored list |
| JsNumbers.DigitValue | src/js/background.js:154 | a digit of base 16 or less has a value below 16, and the decimal digits are exactly the characters with a value below 10 |
| JsNumbers.TrimStart | src/js/background.js:154 | leading white space is dropped: the result is a suffix that starts with no white space, and everything dropped was white space |
| JsNumbers.TrimEnd | src/js/background.js:154 | trailing white space is dropped: the result is a prefix that ends with no white space, and everything dropped was white space |
| JsNumbers.FirstOf | src/js/background.js:154 | the first position holding either character, or the length when neither occurs |
| JsNumbers.ToNumber | src/js/background.js:154-159 | a text that is empty or only white space converts to 0 |
| JsNumbers.DivideBy | src/js/background.js:159 | division by a positive whole number keeps NaN and infinities and divides finite values |
| JsNumbers.Floor | src/js/background.js:159 | the floor of a finite value is the greatest whole number not above it; NaN and infinities are kept |
| JsNumbers.AtLeastOrder | src/js/background.js:159 | `>=` never holds with NaN, is the real order on finite values, holds against minus infinity, and is antisymmetric |
| JsNumbers.DigitsAreDecimal | src/js/background.js:154-159 | a digit string converts to its decimal value |
| JsNumbers.BlankIsZero | src/js/background.js:154 | white space alone converts to 0 |
| JsNumbers.NotALiteral | src/js/background.js:154 | "abc" converts to NaN |
| JsNumbers.TwoPoints | src/js/background.js:154 | "1.2.3" converts to NaN |
| JsNumbers.FractionLiteral | src/js/background.js:154-159 | "1.5" converts to one and a half |
| JsNumbers.NegativeLiteral | src/js/background.js:154-159 | "-1" converts to minus one |
| JsNumbers.ExponentLiteral | src/js/background.js:154-159 | "1e3" converts to a thousand |
| JsNumbers.HexLiteral | src/js/background.js:154-159 | "0x10" converts to sixteen |
| JsNumbers.UnsignedLiteral | src/js/background.js:154-159 | a text with no sign or radix prefix reads as its unsigned decimal value, and as NaN when it has none |
| JsNumbers.NegatedLiteral | src/js/background.js:154-159 | a leading minus negates the unsigned decimal value, and a malformed rest reads as NaN |
| Rules.CustomRule | src/js/background.js:34 | the user's custom type is named "CUSTOM" and has its own category |
| Rules.SupportedWellFormed | src/js/components/supported.js:1-65 | the table has 14 rows with distinct, non-empty type names, each in the stream, subtitle or file category |
| Rules.CategoryByType | src/js/components/supported.js:1-65 | a row's category is stream, subtitles or files exactly when its type is one of that category's types |
| Rules.ContentTypesAreLower | src/js/components/supported.js:1-65 | every content type in the table is already lower case, so lower-casing it changes nothing |
| Rules.StreamContentTypesLower | src/js/components/supported.js:2-19 | the stream rows' content types are lower case |
| Rules.SubtitleContentTypesLower | src/js/components/supported.js:20-38 | the subtitle rows' content types are lower case |
| Rules.FileContentTypesLower | src/js/components/supported.js:39-65 | the file rows' content types are lower case |
| Rules.MssRow | src/js/components/supported.js:19 | "MSS" names exactly one row |
| Rules.HlsRow | src/js/components/supported.js:2-11 | the HLS row is a stream row whose first extension is "m3u8" |
| Rules.MssHasNoContentType | src/js/components/supported.js:19 | the MSS row has no content type, and its only extension is "ism/manifest" |
| Exchanges.FindHeader | src/js/background.js:123-125 | the header found has the wanted name in any letter case; none found means no header has that name |
| Exchanges.ObservedHeaders | src/js/background.js:120-121 | the request headers are used when present, and the response headers otherwise |
| Exchanges.FirstPresent | src/js/background.js:167-171 | the first non-empty candidate is chosen, and "" only when every candidate is empty |
| Classifier.ExtVerdict | src/js/background.js:108-117 | a custom-extension hit gives the custom rule; otherwise the first table row one of whose extensions occurs in the lower-cased path, and no verdict only when no row matches |
| Classifier.CtVerdict | src/js/background.js:123-138 | no Content-Type gives no verdict; a custom content-type hit gives the custom rule; otherwise the first row listing the content type |
| Classifier.Verdict | src/js/background.js:144 | the content-type verdict wins when there is one, and the extension verdict applies otherwise |
| Classifier.UrlFilter | src/js/background.js:104-183 | an accepted exchange gets its verdict, which is a table row or the custom rule; it has a URL not yet listed, a request not queued and a tab that is not a background one, with every preference filter passing; a rejection names one of these failures. Each clause is stated on its own by the rejection lemmas, and Aggregator.AcceptedIsQueued ties acceptance to the queue |
| Classifier.M3u8IsHls | src/js/background.js:110-117 | a path containing ".m3u8" is HLS when no custom extension matches |
| Classifier.DashJsonPatternInert | src/js/components/supported.js:13 | the DASH pattern with a `?` never matches a path, because a path has no query |
| Classifier.BuiltinCtIsMembership | src/js/background.js:135-137 | comparing lower-cased content types with each table entry is membership of the lower-cased value |
| Classifier.MssOnlyByExtension | src/js/background.js:104-144 | an MSS verdict never comes from a header: its path contains ".ism/manifest" |
| Classifier.CtVerdictNeverMss | src/js/background.js:123-138 | a content-type verdict is never MSS |
| Classifier.QueuedIdRejected | src/js/background.js:149 | a request whose id is already in the queue is rejected |
| Classifier.BackgroundRequestRejected | src/js/background.js:150 | a request of tab -1 is rejected |
| Classifier.SizeFilter | src/js/background.js:153-160 | with the size filter on, a missing or empty amount rejects every exchange; with a numeric amount, an accepted exchange is no stream and carries a non-empty Content-Length whose whole MiB, converted as JavaScript numbers, reach the amount |
| Classifier.WholeMiB | src/js/background.js:159 | a length written in digits gives exactly its whole number of MiB |
| Classifier.ReachesFinite | src/js/background.js:159 | for a digit length and a finite amount, the test holds exactly when the whole MiB are at least the amount |
| Classifier.FractionalAmount | src/js/background.js:154-159 | the amount "1.5" is reached exactly from two whole MiB on |
| Classifier.ExponentAmount | src/js/background.js:154-159 | the amount "1e3" is reached exactly from a thousand whole MiB on |
| Classifier.NegativeAmount | src/js/background.js:154-159 | the amount "-1" is reached by every length |
| Classifier.FractionalAmountNeedsLength | src/js/background.js:153-160 | with the amount "1.5", an exchange without a Content-Length is rejected |
| Classifier.UnclassifiedRejected | src/js/background.js:144-147 | an exchange with no verdict is rejected |
| Classifier.ListedUrlRejected | src/js/background.js:148 | an exchange whose URL is already in the live list is rejected, whatever its request id |
| Classifier.CategorySwitchesReject | src/js/background.js:151-152 | the subtitle, file and manifest switches each reject their own category |
| Classifier.BlacklistedDocumentRejected | src/js/background.js:162-176 | an entry found in the lower-cased document URL rejects the request |
| Classifier.OpenFiltersAccept | src/js/background.js:146-177 | with every filter off, a new request in a tab is accepted with its verdict |
| Classifier.MasterPlaylistIsHls | src/js/background.js:104-144 | "/abc/master.m3u8" without a Content-Type is classified as HLS |
| Aggregator.NamePath | src/js/background.js:188-191 | an MSS path is cut at its last '/', and any other path is kept |
| Aggregator.DeriveFilename | src/js/background.js:193-198 | the file name is the path's last '/'-free segment |
| Aggregator.FilenameIsLastSegment | src/js/background.js:193-198 | ".../dir/name" is named "name" |
| Aggregator.IsmNamedBySegment | src/js/background.js:188-198 | an MSS URL ".../X.ism/Manifest" is named by its "X.ism" segment |
| Aggregator.KeptHeaders | src/js/background.js:247-254 | exactly the headers whose lower-cased name is on the kept list are stored |
| Aggregator.Describe | src/js/background.js:237-262 | the stored entry carries the exchange's id, URL, tab, time, host, kept headers, and the rule's type and category |
| Aggregator.DownloadFor | src/js/background.js:204-232 | an automatic download saves to "title-or-host/name" sanitized; Chromium gets a plain download, other browsers pass the Referer headers and the incognito flag |
| Aggregator.Observe | src/js/background.js:146-272 | a rejected exchange changes nothing; an accepted one is queued and is either downloaded without being listed, or appended with a batch entry and no immediate effect |
| Aggregator.BatchIds | src/js/background.js:280-281 | the ids of a batch, in order |
| Aggregator.RemoveIds | src/js/background.js:280-282 | corrected: a queued id survives the removal exactly when it is not one of the flushed ids |
| Aggregator.NotificationFor | src/js/background.js:284-302 | a batch of one notifies its type and name, and a larger batch lists every file name in order |
| Aggregator.Flush | src/js/background.js:273-306 | as written: an empty batch does nothing; otherwise it saves the list, clears the batch, leaves a prefix of the queue (empty when the batch is at least as long as the queue), sets the badge to the count, and notifies once when notifications are on |
| Aggregator.FlushCorrected | src/js/background.js:273-306 | corrected: the same effects and state as the flush, except that the queue keeps exactly the ids that were not flushed |
| Aggregator.IndexFromOne | src/js/background.js:282 | the search starting at index 1 finds the first match at or after it, or -1 |
| Aggregator.SpliceFrom | src/js/background.js:282 | splicing from a start index keeps the prefix before it; from -1 the last element goes |
| Aggregator.SpliceOut | src/js/background.js:282 | one splice as written shortens a non-empty queue, and leaves no later copy of the id |
| Aggregator.SpliceAll | src/js/background.js:280-282 | the as-written flush leaves a prefix of the queue |
| Aggregator.SpliceDropsTheWrongId | src/js/background.js:280-282 | with queue [a, d] and batch [a], the as-written splice keeps a and drops d; the corrected removal keeps d |
| Aggregator.SpliceAllEmpties | src/js/background.js:280-282 | a batch at least as long as the queue empties it as written |
| Aggregator.RemoveIdsEmpties | src/js/background.js:280-282 | a batch holding every queued id empties the queue |
| Aggregator.SpliceAgreesOnExactBatch | src/js/background.js:280-282 | when the batch is the whole queue, the as-written and corrected flushes agree |
| Aggregator.WithoutIds | src/js/background.js:313-318 | deleting keeps exactly the entries whose id is not selected |
| Aggregator.BadgeFor | src/js/background.js:331-334 | the badge is blank exactly when the list is empty, and shows the count otherwise |
| Aggregator.Delete | src/js/background.js:310-335 | deleting from the live list updates its badge; deleting previous entries edits only the restore list; queue and batch are untouched |
| Aggregator.DeleteTwice | src/js/background.js:310-326 | deleting two selections in turn is deleting both at once |
| Aggregator.DeleteIdempotent | src/js/background.js:310-326 | deleting the same selection twice is deleting it once |
| Aggregator.DeleteKeepsOrder | src/js/background.js:313-318 | deleting from two lists joined together deletes from each, keeping the order |
| Aggregator.RestoreOnStartup | src/js/background.js:363-375 | the restored list holds exactly the previous and last-session entries that are not incognito and, with clean-up on, are recent |
| Aggregator.Startup | src/js/background.js:359-382 | startup empties the live list, queue and batch, restores the previous entries and blanks the badge |
| Aggregator.RestoreOrder | src/js/background.js:363-375 | without clean-up, the restored list is the previous entries followed by the last session's, incognito ones dropped |
| Aggregator.Reset | src/js/background.js:416-421 | a reset empties the live and restore lists, blanks the badge, and leaves queue and batch alone |
| Aggregator.ObserveKeepsValid | src/js/background.js:146-272 | observing keeps the state valid: queued ids and live URLs unique, and every batched id queued |
| Aggregator.ObserveKeepsIdsUnique | src/js/background.js:149 | a queued id is never queued a second time |
| Aggregator.ObserveKeepsBatchQueued | src/js/background.js:263-271 | every batched id is in the queue after an observation |
| Aggregator.ObserveKeepsUrlsUnique | src/js/background.js:148 | no URL is listed twice after an observation |
| Aggregator.FlushKeepsValid | src/js/background.js:273-306 | the flush as written keeps the state valid |
| Aggregator.FlushCorrectedKeepsValid | src/js/background.js:273-306 | the corrected flush keeps the state valid |
| Aggregator.FlushesAgreeWithoutDownloads | src/js/background.js:280-282 | when the queue holds exactly the batch ids, the flush as written and the corrected one give the same outcome |
| Aggregator.FlushForgetsDownload | src/js/background.js:280-282 | with queue [a, d] and batch [a], the flush as written keeps [a] and the corrected one keeps [d] |
| Aggregator.AcceptedIsQueued | src/js/background.js:147-183 | an exchange is accepted exactly when observing it grows the queue by one; its id was not queued before and is after, and its URL is listed or a single download is started |
| Aggregator.SecondObservationRejected | src/js/background.js:148-149 | after an accepted exchange, one with the same request id is rejected, and one with the same URL is rejected before and after the flush |
| Aggregator.DeleteKeepsValid | src/js/background.js:310-335 | deleting keeps the state valid |
| Aggregator.StartupIsValid | src/js/background.js:359-382 | the state after startup is valid |
| Aggregator.ObserveStores | src/js/background.js:235-272 | an accepted exchange that is not auto-downloaded adds one entry and one batch entry, with no effect before the flush |
| Aggregator.BurstFlushesOnce | src/js/background.js:265-306 | two accepted exchanges give no effect until the flush; the flush sets the badge once, sends one notification naming both files, and a second flush does nothing |
| Aggregator.FlushTwo | src/js/background.js:284-295 | a batch of two notifies both names, and flushing again does nothing |
| Commands.Resolve | src/js/popup.js:58-81 | the copy falls back to the URL and is flagged exactly when the configured method is incompatible with the entry or is an absent user template; otherwise the configured method is used |
| Commands.CapturedOr | src/js/popup.js:184-189 | the captured header's value when there is one, and the fallback otherwise |
| Commands.HeaderValues | src/js/popup.js:182-207 | the user agent is the captured one or the default; the cookie holds no `"`; the current revision never uses an about: or chrome: referer; otherwise the referer is the captured one, or the first of document, origin, initiator and tab URL |
| Commands.CookieValue | src/js/popup.js:191-195 | the cookie keeps its length, holds no `"`, and is "" when none was captured |
| Commands.StripExtension | src/js/popup.js:344-348 | as written: a name with no '.' becomes "", a name starting with '.' is kept, and otherwise the text after the last '.' and that '.' are dropped |
| Commands.BaseName | src/js/popup.js:344-348 | corrected: a name with no '.' is kept whole, otherwise the last extension is dropped, and a non-empty name never becomes empty |
| Commands.OutputName | src/js/popup.js:340-353 | as written: the output name is path-safe, and without a title a dot-less file name gives the empty name |
| Commands.OutputNameCorrected | src/js/popup.js:340-353 | corrected: the output name is path-safe, a dot-less file name is kept sanitized, and a non-empty file name never gives an empty name |
| Commands.Synthesize | src/js/popup.js:56-414 | the copy keeps the entry's file name and carries the fall-back flag, and a fall-back copy is the bare URL |
| Commands.SynthesizeAll | src/js/popup.js:51-415 | a batch has one copy per entry, each the entry's own |
| Commands.CopyAll | src/js/popup.js:411-419 | as written: one file name per entry, and the batch is flagged exactly when its last entry fell back |
| Commands.AnyDegraded | src/js/popup.js:411-414 | corrected: a batch is flagged exactly when some entry fell back |
| Commands.CopyAllReported | src/js/popup.js:411-442 | the corrected batch has the same text and names, flagged exactly when some entry fell back |
| Commands.ReportedFlagsEarlierEntry | src/js/popup.js:411-442 | an incompatible first entry flags the corrected batch, and the text is unchanged |
| Commands.BatchFlagIsLast | src/js/popup.js:411-442 | as written, an incompatible entry followed by a compatible one leaves the batch unflagged, and the text is both lines joined by the newline |
| Commands.BatchOfOne | src/js/popup.js:411-419 | a batch of one is its entry's text and flag |
| Commands.MssUrlIsFlagged | src/js/popup.js:60-75 | MSS copied as a plain URL is flagged incompatible |
| Commands.HlsToolsOnlyForHls | src/js/popup.js:69-70 | hlsdl and N_m3u8DL-CLI are only used for HLS entries |
| Commands.UserTemplateAcrossRevisions | content/popup.js:37-54 | a user template is allowed for MSS and subtitles in the current revision, and falls back to the URL in the older one |
| Commands.CustomTypeMethods | src/js/popup.js:71 | the custom type can be copied only as a URL or through a user template in the current revision; the older one lets ffmpeg through |
| Commands.RefererPrefersOrigin | src/js/popup.js:197-202 | without a captured Referer, a usable origin URL is the referer |
| Commands.AboutRefererAcrossRevisions | src/js/popup.js:203-207 | an about:blank origin gives no referer in the current revision, and is used as it is in the older one |
| Commands.LeadThenSeparators | src/js/popup.js:209-318 | header arguments written one by one, with a lead before the first and a separator between the others, equal the lead followed by the present fields joined |
| Commands.LeadSeparatorsClose | src/js/popup.js:229-309 | the same with a closing quote after the last field |
| Commands.Nm3u8HeaderIsOneArgument | src/js/popup.js:229-309 | N_m3u8DL-CLI's headers form one quoted `--header` argument, with the fields separated by pipes |
| Commands.KodiHeaderSyntax | src/js/popup.js:211-289 | Kodi's headers follow a pipe and are joined by ampersands |
| Commands.DotlessNameStripped | src/js/popup.js:344 | a dot-less name is emptied as written and kept by the corrected base name |
| Commands.DotlessNameEmptied | src/js/popup.js:340-353 | without a title, a non-empty dot-less file name gives the empty output name as written, and the sanitized name when corrected |
| Commands.OutputNamesAgree | src/js/popup.js:340-353 | the two output names agree exactly when a title is used, the file name has a '.', or the file name is empty |
| Commands.NameLosesLastExtension | src/js/popup.js:340-353 | without a title, "N.E" gives the output name N, sanitized |
| Commands.StemNamed | src/js/popup.js:340-353 | without a title, a path-safe stem N of "N.E" is the output name |
| Commands.StripLastExtension | src/js/popup.js:344-348 | stripping "N.E" gives N |
| Commands.CustomAppends | src/js/popup.js:138-145 | custom arguments only extend the command |
| Commands.ProxyAppends | src/js/popup.js:147-170 | a tool's proxy argument only extends the command |
| Commands.HeadersAppend | src/js/popup.js:182-338 | header arguments are appended exactly when the header preference is on |
| Commands.TrailerAppends | src/js/popup.js:360-400 | a tool's trailer only extends the command |
| Commands.FfmpegRefererArg | src/js/popup.js:291-293 | ffmpeg's referer is ` -referer "<referer>"` |
| Commands.BaseComesFirst | src/js/popup.js:93-136 | every tool command starts with its base invocation |
| Commands.FfmpegText | src/js/popup.js:93-366 | an ffmpeg copy is the base with custom, proxy and header arguments, followed by the input and output tail |
| Commands.FfmpegShape | src/js/popup.js:93-366 | an ffmpeg copy starts with "ffmpeg" and ends with the input and output tail |
| Commands.FfmpegCarriesReferer | src/js/popup.js:284-293 | with headers on, an ffmpeg copy contains ` -referer "<referer>"` whenever a referer is known |
| Commands.FfmpegOutputFile | src/js/popup.js:340-366 | with defaults, "clip.mp4" ends in ` -i "<url>" -c copy "clip.ts"` and "clip" in ` -i "<url>" -c copy ".ts"` |
| Commands.FfmpegTailNamed | src/js/popup.js:354-366 | with the default extension and no timestamp, ffmpeg writes "<name>.ts" |
| Commands.PlainTemplateVerbatim | src/js/popup.js:401-405 | a user template without placeholders is copied verbatim |
| Commands.ProxyPlaceholder | src/js/popup.js:171-176 | without a proxy the template is unchanged; with one, `%proxy%` puts the proxy into the text |
| Commands.UserTemplateExample | src/js/popup.js:401-405 | "dl %url% -ua %useragent%" becomes "dl <url> -ua <default UA>" when no user agent was captured |
| Commands.ExampleHeaders | src/js/popup.js:184-245 | `%useragent%` takes the default user agent when none was captured |
| Commands.ExampleTrailer | src/js/popup.js:401-405 | `%url%` is filled in, and the absent `%filename%` and `%timestamp%` change nothing |
| Commands.ClipWithExtension | src/js/popup.js:340-353 | "clip.mp4" gives the output name "clip" |
| Commands.ClipNamed | src/js/popup.js:340-353 | with no title asked for, "clip" gives the empty output name and "clip.mp4" gives "clip"; the corrected name is "clip" for both |
| ListView.Listed | src/js/popup.js:599-628 | the listed rows are exactly the entries of the view's source shown for this tab or window that match the lower-cased filter in name, title, type or host |
| ListView.Shown | src/js/popup.js:598-640 | the placeholder shows exactly when both lists are empty or nothing is listed; otherwise the listed rows are shown newest first |
| ListView.RowIds | src/js/popup.js:466-469 | the ids of the shown rows, in order |
| ListView.RowSelection | src/js/popup.js:471-477 | "copy all" takes exactly the entries whose id is shown |
| ListView.RowSelectionTakesShown | src/js/popup.js:466-477 | selecting the shown rows by their ids gives back the shown rows |
| ListView.ShownIsListed | src/js/popup.js:630-635 | an entry is shown exactly when it is listed |
| ListView.ClearListEmptiesView | src/js/popup.js:479-489 | "clear list" deletes every shown row, after which the same view lists nothing |
| ListView.AllTabsAcrossRevisions | content/popup.js:586-587 | the older revision's all-tabs view lists every live entry; the current one only those of the same incognito state |
| ListView.NewestFirst | content/popup.js:603-605 | the all-tabs view shows the newest entry first |
| ListView.Activate | src/js/popup.js:453-456 | a click downloads a file entry when direct download is on in the current revision, and copies the entry otherwise; ListView.ClickCopiesAsCopyAll ties the copy to "copy all" |
| ListView.ClickCopiesAsCopyAll | src/js/popup.js:381-456 | a click that copies copies what "copy all" copies on a list showing only that entry: the entry's own text, its own incompatible flag and its file name |
| PublicBackground.ExtRule | public/background.js:48-51 | the extension verdict is a table row matching the lower-cased path, and none only when no row matches |
| PublicBackground.CtRule | public/background.js:52-58 | the content-type verdict is a row listing the lower-cased value, and none only when no row does |
| PublicBackground.ChannelVerdict | public/background.js:48-59 | request-channel exchanges are classified by extension and response-channel ones by Content-Type only |
| PublicBackground.BlacklistPasses | public/background.js:67-77 | the blacklist passes exactly when it is off, or it is stored and no entry hits |
| PublicBackground.NoHits | public/background.js:67-77 | an empty filter result means that no entry hits |
| PublicBackground.UrlFilter | public/background.js:45-84 | an exchange is accepted exactly when it has a verdict from its listener's channel, its URL is new, its id is not queued, and the subtitle, file and blacklist filters pass; the tab is not checked, and the accepted rule is a table row. PublicBackground.AgreesWithCurrentOnRequests relates it to the current revision |
| PublicBackground.ListedUrlRejected | public/background.js:63 | an exchange whose URL is already in the live list is rejected |
| PublicBackground.CategorySwitchesReject | public/background.js:47-66 | an exchange the listener's channel cannot classify is rejected, and the subtitle and file switches reject their own category |
| PublicBackground.AgreesWithCurrentOnRequests | public/background.js:45-84 | without a blacklist, a request-channel exchange from a tab, with no Content-Type header, gets the same answer as from the current revision with the same category switches |
| PublicBackground.RequestChannelIsExtensionVerdict | public/background.js:48-51 | on the request channel the verdict is the current extension verdict |
| PublicBackground.ResponseChannelIsContentTypeVerdict | public/background.js:52-58 | on the response channel with a Content-Type, the verdict is the current content-type verdict |
| PublicBackground.ChannelsAreIndependent | public/background.js:48-59 | headers never affect a request-channel verdict, and the path never affects a response-channel one |
| PublicBackground.BackgroundRequestsAccepted | public/background.js:61-78 | a background request is treated like any other, where the current revision rejects it |
| PublicBackground.MissingBlacklistRejects | public/background.js:67-77 | a blacklist switched on but never stored rejects everything |
| PublicBackground.BlacklistIsCaseSensitive | public/background.js:69-76 | the entry "CDN" does not block "https://cdn.example/…" |
| PublicBackground.FilenameAsCurrent | public/background.js:89-99 | file names are derived as in the current revision |
| PublicBackground.Describe | public/background.js:103-113 | the entry keeps all observed headers, with the exchange's id, URL, tab, time and host |
| PublicBackground.Observe | public/background.js:86-141 | each accepted exchange is listed and saved at once, the badge is set to the new count, and one notification follows when notifications are on |
| PublicBackground.AcceptedIsListed | public/background.js:60-126 | an exchange is accepted exactly when observing it lists one more entry; its URL is then live and any later exchange for that URL is rejected |
| PublicBackground.ObserveKeepsUrlsUnique | public/background.js:61-115 | no URL is listed twice, and the queue stays empty |
| PublicBackground.NoBatching | public/background.js:115-140 | two exchanges give two badge updates and two notifications |
| PublicBackground.Delete | public/background.js:143-169 | deleting targets the live list only when the flag is explicitly false |
| PublicBackground.MissingFlagTargetsRestore | public/background.js:145-160 | a missing flag edits the restore list only |
| PublicBackground.Startup | public/background.js:171-220 | after a major update both lists read back empty; otherwise the last session stays listed and is merged into the restore list, filtered only by age |
| PublicBackground.MajorUpdateForgetsLists | public/background.js:176-187 | starting 2.0 over a stored 1.2 forgets both lists, while starting 10.0 over a stored 9.0 keeps the last session listed |
| PublicBackground.PreviousEntryListedTwice | public/background.js:205-220 | when the version is unchanged, a recent incognito entry of the last session is both live and previous, where the current revision drops it |
| LegacyBackground.GetExtension | background.js:36-48 | the extension is lower case, holds no '.', and is no longer than the URL |
| LegacyBackground.ExtensionOf | background.js:36-48 | "P.E" has the extension E, lower-cased |
| LegacyBackground.ExtensionWithQuery | background.js:42-45 | the query string is not part of the extension |
| LegacyBackground.ExtensionOfSimpleHref | background.js:36-48 | with or without a query, "P.E" has the extension E |
| LegacyBackground.ContentTypeAccepted | background.js:55-63 | a response is accepted exactly when its first Content-Type header, lower-cased, is on the list |
| LegacyBackground.PlaylistDetected | background.js:50-53 | ".../video.M3U8?token=abc" is detected by its extension |
| LegacyBackground.ContentTypesAgainstCurrent | background.js:15-24 | every old content type is in a current stream or subtitle row; the HLS audio type is new |
| LegacyBackground.Filename | background.js:76-91 | a name not taken from ".ism" holds no '?' |
| LegacyBackground.NameOfSimpleHref | background.js:77-85 | ".../N.E" is named N |
| LegacyBackground.NameOfIsmHref | background.js:86-91 | ".../S.ism…" is named S |
| LegacyBackground.DotlessHrefLosesLastCharacter | background.js:78-81 | a dot-less href loses its last character |
| LegacyBackground.EntryFor | background.js:92-107 | the entry carries id, URL, tab, time, name, extension, host and headers, and is not marked previous |
| LegacyBackground.AddUrl | background.js:65-139 | a queued or listed exchange changes nothing; otherwise it is appended, and with an empty queue saved and counted on the badge |
| Aggregator.QueueRestored | public/background.js:115-126 | filtering out the id just pushed gives back the queue in its order, so the older revisions end every addition with the queue they started with |
| LegacyBackground.Observe | background.js:50-63 | only detected exchanges are added |
| LegacyBackground.ObserveKeepsValid | background.js:65-139 | observing keeps URLs unique, and a changed list is saved and counted |
| LegacyBackground.WithoutIds | background.js:144-153 | deleting keeps exactly the unselected entries |
| LegacyBackground.Delete | background.js:141-165 | only an explicit false flag deletes from the live list |
| LegacyBackground.DeleteKeepsValid | background.js:141-153 | deleting keeps the state valid |
| LegacyBackground.HeadersPrefAsWritten | background.js:186 | as written, the header preference always comes out on |
| LegacyBackground.HeadersPrefDefault | background.js:186 | corrected: a stored preference is kept, and a missing one defaults to on |
| LegacyBackground.HeadersPrefOverwritten | background.js:186 | a stored "off" is lost as written and kept when corrected |
| LegacyBackground.StartUp | background.js:167-228 | as written: setup reports a version change, turns the header preference on whatever was stored, reads notifications as on only when stored on, and restores the previous and last-session entries |
| LegacyBackground.StartUpCorrected | background.js:186 | corrected: setup as written except that a stored header preference is kept, so a stored "off" stays off |
| LegacyBackground.ClearingKeepsRestore | background.js:171-227 | the restored list does not depend on whether the version changed |
| LegacyBackground.StartUpIsValid | background.js:214-226 | the state after setup is valid |
| LegacyPopup.Resolve | popup/popup.js:97-113 | the copy falls back to the URL exactly when the method is incompatible with the extension or is an empty template |
| LegacyPopup.Command | popup/popup.js:115-273 | the command fails exactly when headers are on and the entry has no request headers; a fall-back is the URL |
| LegacyPopup.CopyOne | popup/popup.js:92-279 | the copied name is "name.ext", and the flag is the fall-back flag |
| LegacyPopup.CopyEach | popup/popup.js:92-279 | the batch fails exactly when some entry fails; otherwise it holds each entry's copy |
| LegacyPopup.CopyUrls | popup/popup.js:89-307 | one name per entry, the last entry's flag, and a notification unless notifications are explicitly on |
| LegacyPopup.SubtitlesOnlyThroughYoutubeDl | popup/popup.js:101-102 | VTT and ISM entries fall back unless youtube-dl is chosen |
| LegacyPopup.HlsdlOnlyForM3u8 | popup/popup.js:103 | hlsdl falls back exactly for extensions other than m3u8 |
| LegacyPopup.SubtitleRuleInverted | popup/popup.js:102 | subtitles are allowed only through youtube-dl here, and only as a URL in the current revision |
| LegacyPopup.EmptyTemplateFallsBack | popup/popup.js:110-113 | an empty user template copies the flagged URL |
| LegacyPopup.FirstOfTwo | popup/popup.js:269 | a plain-string replace fills only the first `%url%` |
| LegacyPopup.BothOfTwo | src/js/popup.js:402 | a global replace fills both |
| LegacyPopup.NoFilenamePlaceholder | popup/popup.js:270 | a `%filename%` that `%url%` filling did not leave changes nothing |
| LegacyPopup.FirstPlaceholderOnly | popup/popup.js:268-271 | the template "%url% %url%" copies "<url> %url%" |
| LegacyPopup.ResponseEntryAbortsBatch | popup/popup.js:165-166 | with headers on, a response-channel entry aborts the whole batch |
| LegacyPopup.FfmpegShape | popup/popup.js:119-254 | with defaults, ffmpeg gives `ffmpeg -i "<url>" -c copy "<name>.ts"` |
| LegacyPopup.StreamlinkDefaultsToFile | popup/popup.js:256-261 | an unset streamlink output behaves like "file" |
| LegacyPopup.CustomNeedsNoSwitch | popup/popup.js:137-141 | custom arguments apply without the switch here, and not in the current revision |
| LegacyPopup.NoRefererFallback | popup/popup.js:179-182 | without a captured Referer there is none, while the newer revisions fall back to the origin |
| LegacyPopup.BatchFlagIsLast | popup/popup.js:274-281 | two lines are joined by "\n", and the flag is the second entry's |
| LegacyPopup.Listed | popup/popup.js:418-435 | the listed rows are exactly the stored entries of the view that match the filter |
| LegacyPopup.Shown | popup/popup.js:408-443 | the placeholder shows exactly when nothing is listed; otherwise the listed rows are shown newest first |
| LegacyPopup.RowIds | popup/popup.js:314-318 | the ids of the shown rows, in order |
| LegacyPopup.RowSelection | popup/popup.js:320-326 | "copy all" takes exactly the entries whose id is shown |
| LegacyPopup.RowSelectionTakesShown | popup/popup.js:320-335 | selecting the shown rows by their ids gives back the shown rows |
| LegacyPopup.ObserveKeepsUnflagged | background.js:92-107 | the oldest background never marks an entry as previous |
| LegacyPopup.PreviousViewEmpty | popup/popup.js:425-426 | the previous-sessions view is always empty, and the all-tabs view shows everything newest first |
| LegacyPopup.ClearListKeepsRows | popup/popup.js:328-335 | "clear list" sends no flag, so it edits only the restore list and the view is unchanged |

## Left out

- Browser APIs are not modelled: listeners, storage, tabs, badge, notifications, downloads and the clipboard. The model returns their effects as values, and reads stored settings from a record passed in.
- The debounce timer and other asynchronous ordering are not modelled. A flush is an explicit operation, and one observation runs to completion before the next.
- `new URL` parsing is not modelled: the path, host and URL are inputs.
- Text.Lower: lower-casing maps ASCII letters only, whereas JavaScript's `toLowerCase` also folds non-ASCII letters. This affects non-ASCII text in the list filter (src/js/popup.js:621-626), the blacklist (src/js/background.js:166-175) and the extension and content-type tests.
- JsNumbers.ToNumber: finite values are exact rationals. Rounding to the nearest double, overflow to infinity and negative zero are not modelled, so an amount or length beyond double precision may compare differently.
- The version-triggered storage clear of src/js/background.js (lines 340-344) is switched off by `CLEAR_STORAGE` (line 9) and is not modelled.
- Dates and their formatting are inputs (`stamp`, `now`).
- Regular expressions: placeholders are literal patterns, and `$` replacement patterns are not interpreted.
- The user's final regular-expression pass over a template is not modelled.
- Commands.OutputName: the contract states that the name is path-safe and empty for a dot-less file name. The name of "N.E" is stated by NameLosesLastExtension, StemNamed and ClipWithExtension.
- Commands.Synthesize: the contract fixes the text only for the URL fall-back. Each tool's text is stated by the Ffmpeg, template and header lemmas, not for every tool.
- UriComponent.Utf8: encoding of non-ASCII characters is bounded but not fixed byte by byte, and UriComponent.DecodeEncode covers ASCII text only.
- LegacyBackground.Filename: the contract states only the '?' bound. The names of simple, ISM and dot-less hrefs are stated by the lemmas after it.
- LegacyBackground.GetExtension: the contract gives bounds only. The extension of "P.E" is stated by ExtensionOf and ExtensionWithQuery.
- `downloadURL` of src/js/popup.js is not modelled beyond the choice made in `ListView.Activate`.
- A copy method outside the matrix is not modelled; the source copies nothing for it.
- The crash of popup/popup.js on an undefined user template is not modelled, because the stored template is a string here.
- The options pages and src/js/components/storage.js are not part of this model.
- DOM rendering of the list, the clipboard fallback and enabling or disabling listeners are not modelled.
- The `supported.js` imported by public/background.js is not part of this model. The current table stands in for it.

## Findings

| source | as written | input that shows it | evidently intended | confidence | as-written member | corrected member |
|---|---|---|---|---|---|---|
| src/js/background.js:280-282 | each flushed id is spliced with `queue.splice(queue.indexOf(id, 1))`: the search starts at index 1, and the splice removes everything from the found index, or only the last element when nothing is found | queue [a, d], with d auto-downloaded and never batched, and batch [a]: a stays queued and d is dropped | remove exactly each flushed id, `queue.splice(queue.indexOf(id), 1)` | high, not executed | Aggregator.FlushForgetsDownload | Aggregator.FlushCorrected |
| src/js/popup.js:344 | `if (outFilename.indexOf("."))` is true for -1, so a name without a '.' is split, its only part popped, and the output name becomes "" | file name "clip" with ffmpeg: the output file is ".ts" | strip the extension only when the name has one, giving "clip.ts" | high, not executed | Commands.DotlessNameEmptied | Commands.OutputNameCorrected |
| src/js/popup.js:411-414 | `list.methodIncomp = methodIncomp` overwrites the flag for every entry | two entries, the first incompatible and the second not: the "copied with incompatibilities" notice is not shown | raise the flag when any entry fell back | high, not executed | Commands.BatchFlagIsLast | Commands.CopyAllReported |
| background.js:186 | the stored header preference is OR-ed with `true`, which is true for every stored value | stored header preference false: it is saved back as true | default to true only when the preference is missing | medium, not executed | LegacyBackground.HeadersPrefOverwritten | LegacyBackground.StartUpCorrected |

The same extension test appears in content/popup.js:322. The same flag overwrite appears in content/popup.js:393 and popup/popup.js:278.
