/** The built-in classification table of src/js/components/supported.js:
    fourteen rules, each a list of URL-extension patterns, a list of
    content types, a resource type name and a category. The table is
    ordered; lookups take the first rule that matches. */
module Rules {
  import opened Text

  datatype Category = Stream | Subtitles | Files | Custom

  datatype Rule = Rule(ext: seq<string>, ct: seq<string>, typeName: string, category: Category)

  const Supported: seq<Rule> := [
    Rule(["m3u8"], ["application/x-mpegurl", "application/vnd.apple.mpegurl", "audio/vnd.apple.mpegurl"], "HLS", Stream),
    Rule(["mpd", "json?base64_init=1"], ["application/dash+xml"], "DASH", Stream),
    Rule(["f4m"], ["application/f4m"], "HDS", Stream),
    Rule(["ism/manifest"], [], "MSS", Stream),
    Rule(["vtt"], ["text/vtt"], "VTT", Subtitles),
    Rule(["srt"], ["application/x-subrip"], "SRT", Subtitles),
    Rule(["ttml", "ttml2"], ["application/ttml+xml"], "TTML", Subtitles),
    Rule(["dfxp"], ["application/ttaf+xml"], "DFXP", Subtitles),
    Rule(["mp4", "m4v", "m4s"], ["video/x-m4v", "video/m4v", "video/mp4"], "MP4", Files),
    Rule(["ts", "m2t"], ["video/mp2t"], "TS", Files),
    Rule(["aac", "m4a"], ["audio/aac", "audio/m4a"], "AAC", Files),
    Rule(["mp3"], ["audio/mpeg"], "MP3", Files),
    Rule(["ogg", "ogv", "oga", "opus"], ["video/ogg", "audio/ogg", "audio/opus"], "OGG", Files),
    Rule(["weba", "webm"], ["audio/webm", "video/webm"], "WEBM", Files)
  ]

  /** Index of a type name in the table. */
  const HlsIndex := 0
  const DashIndex := 1
  const MssIndex := 3

  /** The user-configured rule that the classifier tries before the table
      (`customSupported` of src/js/background.js). */
  function CustomRule(ext: seq<string>, ct: seq<string>): (r: Rule)
    ensures r.category == Custom && r.typeName == "CUSTOM"
  {
    Rule(ext, ct, "CUSTOM", Custom)
  }

  predicate IsStreamType(t: string) {
    t in ["HLS", "DASH", "HDS", "MSS"]
  }

  predicate IsSubtitleType(t: string) {
    t in ["VTT", "SRT", "TTML", "DFXP"]
  }

  predicate IsFileType(t: string) {
    t in ["MP4", "TS", "AAC", "MP3", "OGG", "WEBM"]
  }

  /** Every built-in rule has a non-empty type, one of the three built-in
      categories, and a type no other rule uses. */
  lemma SupportedWellFormed()
    ensures |Supported| == 14
    ensures forall i :: 0 <= i < |Supported| ==>
      Supported[i].typeName != "" && Supported[i].category in {Stream, Subtitles, Files}
    ensures forall i, j :: 0 <= i < j < |Supported| ==> Supported[i].typeName != Supported[j].typeName
  {
  }

  /** The category of a built-in rule is determined by its type: streams are
      exactly HLS/DASH/HDS/MSS, subtitles VTT/SRT/TTML/DFXP and files
      MP4/TS/AAC/MP3/OGG/WEBM. */
  lemma CategoryByType()
    ensures forall i :: 0 <= i < |Supported| ==>
      (Supported[i].category == Stream <==> IsStreamType(Supported[i].typeName)) &&
      (Supported[i].category == Subtitles <==> IsSubtitleType(Supported[i].typeName)) &&
      (Supported[i].category == Files <==> IsFileType(Supported[i].typeName))
  {
  }

  /** Every built-in content type is already lower case, so comparing it
      case-insensitively only needs the header value lowered. */
  lemma ContentTypesAreLower()
    ensures forall i, k :: 0 <= i < |Supported| && 0 <= k < |Supported[i].ct| ==>
      IsLower(Supported[i].ct[k]) && Lower(Supported[i].ct[k]) == Supported[i].ct[k]
  {
    StreamContentTypesLower();
    SubtitleContentTypesLower();
    FileContentTypesLower();
  }

  /** The content types of rows lo..hi-1 are lower case. */
  predicate RowsCtLower(lo: nat, hi: nat)
    requires lo <= hi <= |Supported|
  {
    forall i, k :: lo <= i < hi && 0 <= k < |Supported[i].ct| ==>
      IsLower(Supported[i].ct[k]) && Lower(Supported[i].ct[k]) == Supported[i].ct[k]
  }

  lemma StreamContentTypesLower()
    ensures RowsCtLower(0, 4)
  {
    forall i, k | 0 <= i < 4 && 0 <= k < |Supported[i].ct|
      ensures IsLower(Supported[i].ct[k]) && Lower(Supported[i].ct[k]) == Supported[i].ct[k]
    {
      NoUpperIsLower(Supported[i].ct[k]);
      LowerOfLower(Supported[i].ct[k]);
    }
  }

  lemma SubtitleContentTypesLower()
    ensures RowsCtLower(4, 8)
  {
    forall i, k | 4 <= i < 8 && 0 <= k < |Supported[i].ct|
      ensures IsLower(Supported[i].ct[k]) && Lower(Supported[i].ct[k]) == Supported[i].ct[k]
    {
      NoUpperIsLower(Supported[i].ct[k]);
      LowerOfLower(Supported[i].ct[k]);
    }
  }

  lemma FileContentTypesLower()
    ensures RowsCtLower(8, 14)
  {
    forall i, k | 8 <= i < 14 && 0 <= k < |Supported[i].ct|
      ensures IsLower(Supported[i].ct[k]) && Lower(Supported[i].ct[k]) == Supported[i].ct[k]
    {
      NoUpperIsLower(Supported[i].ct[k]);
      LowerOfLower(Supported[i].ct[k]);
    }
  }

  /** Content types are written with lower-case letters, digits and `/+.-`. */
  predicate IsCtChar(c: char) {
    'a' <= c <= 'z' || '0' <= c <= '9' || c in "/+.-"
  }

  lemma NoUpperIsLower(s: string)
    requires forall c :: c in s ==> IsCtChar(c)
    ensures IsLower(s)
  {
    forall i | 0 <= i < |s| ensures !IsAsciiUpper(s[i]) {
      assert s[i] in s;
    }
  }

  /** "MSS" names exactly one row of the table. */
  lemma MssRow(i: int)
    requires 0 <= i < |Supported| && Supported[i].typeName == "MSS"
    ensures i == MssIndex
  {
  }

  /** HLS is the first row, recognised by ".m3u8". */
  lemma HlsRow()
    ensures |Supported[HlsIndex].ext| > 0 && "." + Supported[HlsIndex].ext[0] == ".m3u8"
    ensures Supported[HlsIndex].typeName == "HLS" && Supported[HlsIndex].category == Stream
  {
  }

  /** MSS has no content type: it can only be recognised by its extension. */
  lemma MssHasNoContentType()
    ensures Supported[MssIndex].typeName == "MSS" && Supported[MssIndex].ct == []
    ensures Supported[MssIndex].ext == ["ism/manifest"]
    ensures "." + Supported[MssIndex].ext[0] == ".ism/manifest"
  {
  }
}
