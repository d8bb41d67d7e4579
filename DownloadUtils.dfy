/**
 * The download utilities: environment detection, the timestamped file
 * name, the three download strategies (each reduced to what it does and
 * whether its promise resolves `true`) and the ordered choice among them.
 */
module DownloadUtils {
  import opened Text

  // ----- detectEnvironment -----

  /** What `detectEnvironment` reads from the browser. */
  datatype Runtime = Runtime(
    userAgent: string,
    protocol: string,           // window.location.protocol
    objectURLs: bool,           // window.URL and window.URL.createObjectURL both exist
    blobConstructor: bool,      // window.Blob exists
    anchorDownload: bool,       // 'download' in a fresh <a> element
    canvasContext: bool)        // a fresh <canvas> has getContext

  datatype Environment = Environment(
    isAPK: bool,
    isMobile: bool,
    isIOS: bool,
    isAndroid: bool,
    supportsBlob: bool,
    supportsDownload: bool,
    supportsCanvas: bool)

  /** The alternatives of `/android|webos|iphone|ipod|blackberry|iemobile|opera mini|mobile/i`. */
  const MobileTokens: seq<string> :=
    ["android", "webos", "iphone", "ipod", "blackberry", "iemobile", "opera mini", "mobile"]

  /** `re.test(ua)` for a case-insensitive alternation of lower-case words. */
  predicate MatchesAnyIgnoringCase(ua: string, tokens: seq<string>)
    ensures MatchesAnyIgnoringCase(ua, tokens) <==>
      exists k: nat, i: nat :: k < |tokens| && OccursAt(tokens[k], Lower(ua), i)
  {
    exists k :: 0 <= k < |tokens| && Contains(Lower(ua), tokens[k])
  }

  function DetectEnvironment(rt: Runtime): (env: Environment)
    ensures !rt.objectURLs || rt.protocol == "file:" ==> env.isAPK
    ensures Contains(rt.userAgent, "wv") ==> env.isAPK
    ensures env.supportsBlob ==> rt.objectURLs && rt.blobConstructor
    ensures !env.isAPK ==> env.supportsBlob == rt.blobConstructor
    ensures env.supportsBlob == (rt.blobConstructor && rt.objectURLs)
    ensures env.supportsDownload == rt.anchorDownload && env.supportsCanvas == rt.canvasContext
    ensures env.isAndroid && Contains(rt.userAgent, "Version/") ==> env.isAPK
    ensures env.isAndroid <==> Contains(rt.userAgent, "Android")
    ensures env.isIOS <==>
      Contains(rt.userAgent, "iPad") || Contains(rt.userAgent, "iPhone") || Contains(rt.userAgent, "iPod")
    ensures env.isMobile <==> MatchesAnyIgnoringCase(rt.userAgent, MobileTokens)
  {
    var ua := rt.userAgent;
    Environment(
      isAPK := Contains(ua, "wv")
               || (Contains(ua, "Android") && Contains(ua, "Version/"))
               || rt.protocol == "file:"
               || !rt.objectURLs,
      isMobile := MatchesAnyIgnoringCase(ua, MobileTokens),
      isIOS := Contains(ua, "iPad") || Contains(ua, "iPhone") || Contains(ua, "iPod"),
      isAndroid := Contains(ua, "Android"),
      supportsBlob := rt.blobConstructor && rt.objectURLs,
      supportsDownload := rt.anchorDownload,
      supportsCanvas := rt.canvasContext)
  }

  /** An occurrence of `pat` in `s` is an occurrence of its lower-case form in the lower-case `s`. */
  lemma ContainsLower(s: string, pat: string)
    requires Contains(s, pat)
    ensures Contains(Lower(s), Lower(pat))
  {
    var i := IndexOf(s, pat).value;
    assert s[i..i + |pat|] == pat;
    assert Lower(s)[i..i + |pat|] == Lower(pat);
    assert OccursAt(Lower(pat), Lower(s), i);
    var r := IndexOf(Lower(s), Lower(pat));
  }

  /** A user agent holding a word whose lower-case form is one of the mobile tokens counts as mobile. */
  lemma TokenMakesMobile(rt: Runtime, word: string, k: nat)
    requires k < |MobileTokens| && Lower(word) == MobileTokens[k] && Contains(rt.userAgent, word)
    ensures DetectEnvironment(rt).isMobile
  {
    ContainsLower(rt.userAgent, word);
  }

  /** Every Android device and every iPhone or iPod counts as mobile. */
  lemma {:induction false} AndroidAndIPhoneAreMobile(rt: Runtime)
    ensures DetectEnvironment(rt).isAndroid ==> DetectEnvironment(rt).isMobile
    ensures Contains(rt.userAgent, "iPhone") || Contains(rt.userAgent, "iPod") ==> DetectEnvironment(rt).isMobile
  {
    var ua := rt.userAgent;
    if Contains(ua, "Android") {
      assert Lower("Android") == MobileTokens[0];
      TokenMakesMobile(rt, "Android", 0);
    }
    if Contains(ua, "iPhone") {
      assert Lower("iPhone") == MobileTokens[2];
      TokenMakesMobile(rt, "iPhone", 2);
    }
    if Contains(ua, "iPod") {
      assert Lower("iPod") == MobileTokens[3];
      TokenMakesMobile(rt, "iPod", 3);
    }
  }


  const DefaultPrefix: string := "watermarked"

  /** `new Date().toISOString()` as it is produced for years 0000 to 9999: `YYYY-MM-DDTHH:mm:ss.sssZ`. */
  predicate IsIsoTimestamp(s: string) {
    && |s| == 24
    && s[4] == '-' && s[7] == '-' && s[10] == 'T' && s[13] == ':' && s[16] == ':'
    && s[19] == '.' && s[23] == 'Z'
    && forall k :: 0 <= k < 24 && k !in {4, 7, 10, 13, 16, 19, 23} ==> IsDigit(s[k])
  }

  function Sanitized(c: char): char {
    if c == ':' || c == '.' then '-' else c
  }

  /** `iso.replace(/[:.]/g, '-').slice(0, 19)`. */
  function Timestamp(iso: string): (ts: string)
    ensures |ts| == if |iso| < 19 then |iso| else 19
    ensures ':' !in ts && '.' !in ts
    ensures forall k :: 0 <= k < |ts| ==> ts[k] == Sanitized(iso[k])
  {
    var replaced := seq(|iso|, k requires 0 <= k < |iso| => Sanitized(iso[k]));
    if |replaced| < 19 then replaced else replaced[..19]
  }

  /** For a standard ISO instant the timestamp is the date and the time to the second, with `-` for `:`. */
  lemma TimestampOfIso(iso: string)
    requires IsIsoTimestamp(iso)
    ensures Timestamp(iso) == iso[..13] + "-" + iso[14..16] + "-" + iso[17..19]
  {
    var ts := Timestamp(iso);
    var expected := iso[..13] + "-" + iso[14..16] + "-" + iso[17..19];
    assert |ts| == 19 == |expected|;
    forall k | 0 <= k < 19 ensures ts[k] == expected[k] {
      if k !in {4, 7, 10, 13, 16} {
        assert IsDigit(iso[k]);
      }
    }
  }

  /** The extension: the last `.`-segment, or `png` when that segment is empty. */
  function Extension(originalName: string): (ext: string)
    ensures ext != [] && '.' !in ext
    ensures ext == LastSegment(originalName, '.') || (LastSegment(originalName, '.') == [] && ext == "png")
  {
    var last := LastSegment(originalName, '.');
    if last == [] then "png" else last
  }

  /**
   * `${prefix}_${baseName}_${timestamp}.${extension}`, the base name being
   * the original name with the first `.` + extension removed; the current
   * time is passed in as its ISO string.
   */
  function GenerateFileName(originalName: string, prefix: string, iso: string): (r: string)
    ensures IsPrefix(prefix + "_", r)
    ensures IsSuffix("_" + Timestamp(iso) + "." + Extension(originalName), r)
  {
    var extension := Extension(originalName);
    var baseName := ReplaceFirst(originalName, "." + extension, "");
    var head := prefix + "_" + baseName;
    var tail := "_" + Timestamp(iso) + "." + extension;
    ConcatEnds(head, tail);
    ConcatEnds(prefix + "_", baseName);
    PrefixOfPrefix(prefix + "_", head, head + tail);
    head + tail
  }

  /** The name is assembled from the base name, the timestamp and the extension. */
  lemma GenerateFileNameOf(originalName: string, prefix: string, iso: string, extension: string, baseName: string)
    requires Extension(originalName) == extension
    requires ReplaceFirst(originalName, "." + extension, "") == baseName
    ensures GenerateFileName(originalName, prefix, iso) == prefix + "_" + baseName + "_" + Timestamp(iso) + "." + extension
  {
    var head := prefix + "_" + baseName;
    var ts := Timestamp(iso);
    AppendAssoc(head, "_" + ts + ".", extension);
    AppendAssoc(head, "_" + ts, ".");
    AppendAssoc(head, "_", ts);
  }

  /** `photo.jpg` becomes `watermarked_photo_<timestamp>.jpg`. */
  lemma {:induction false} GenerateFileNameSimple(b: string, e: string, prefix: string, iso: string)
    requires '.' !in b && '.' !in e && e != []
    ensures GenerateFileName(b + "." + e, prefix, iso) == prefix + "_" + b + "_" + Timestamp(iso) + "." + e
  {
    var s := b + "." + e;
    LastSegmentAfterLastDot(b, e);
    FirstOccurrenceAfterBase(b, e, e);
    assert s[..|b|] + s[|b| + |"." + e|..] == b;
    GenerateFileNameOf(s, prefix, iso, e, b);
  }

  /**
   * A name ending in `.` gets the default extension `png`; the trailing `.`
   * stays in the base name because no `.png` is found to remove.
   */
  lemma {:induction false} GenerateFileNameTrailingDot(b: string, prefix: string, iso: string)
    requires '.' !in b
    ensures GenerateFileName(b + ".", prefix, iso) == prefix + "_" + (b + ".") + "_" + Timestamp(iso) + ".png"
  {
    var s := b + ".";
    assert s[|s| - 1] == '.';
    assert LastSegment(s, '.') == [];
    forall i | 0 <= i <= |s| ensures !OccursAt("." + "png", s, i) {
      if i + 4 <= |s| {
        assert s[i] == b[i];
      }
    }
    GenerateFileNameOf(s, prefix, iso, "png", s);
  }

  /** A name without a `.` is its own extension; the empty name gets `png`. */
  lemma {:induction false} GenerateFileNameNoDot(n: string, prefix: string, iso: string)
    requires '.' !in n
    ensures n != [] ==> GenerateFileName(n, prefix, iso) == prefix + "_" + n + "_" + Timestamp(iso) + "." + n
    ensures n == [] ==> GenerateFileName(n, prefix, iso) == prefix + "__" + Timestamp(iso) + ".png"
  {
    assert LastIndexOf(n, '.').None?;
    var ext := Extension(n);
    forall i | 0 <= i <= |n| ensures !OccursAt("." + ext, n, i) {
    }
    GenerateFileNameOf(n, prefix, iso, ext, n);
  }

  /** Names that differ only in equally long timestamps differ. */
  lemma TimestampDeterminesName(head: string, x: string, y: string, ext: string)
    requires |x| == |y| && x != y
    ensures head + x + "." + ext != head + y + "." + ext
  {
    assert (head + x + "." + ext)[|head|..|head| + |x|] == x;
    assert (head + y + "." + ext)[|head|..|head| + |y|] == y;
  }

  /** Two calls made in different seconds give different names, whatever the original name. */
  lemma {:induction false} DistinctSecondsGiveDistinctNames(originalName: string, prefix: string, a: string, b: string)
    requires IsIsoTimestamp(a) && IsIsoTimestamp(b)
    requires a[..19] != b[..19]
    ensures GenerateFileName(originalName, prefix, a) != GenerateFileName(originalName, prefix, b)
  {
    var ta, tb := Timestamp(a), Timestamp(b);
    var k :| 0 <= k < 19 && a[k] != b[k];
    if k !in {4, 7, 10, 13, 16} {
      assert IsDigit(a[k]) && IsDigit(b[k]);
    }
    assert ta[k] != tb[k];
    var ext := Extension(originalName);
    var baseName := ReplaceFirst(originalName, "." + ext, "");
    GenerateFileNameOf(originalName, prefix, a, ext, baseName);
    GenerateFileNameOf(originalName, prefix, b, ext, baseName);
    TimestampDeterminesName(prefix + "_" + baseName + "_", ta, tb, ext);
  }

  // ----- the three strategies -----

  datatype Strategy = DataURL | Blob | Base64Link

  /** What a strategy left behind in the page. */
  datatype Effect =
    | ViewerWindowOpened      // a new window showing the image with save instructions
    | NavigatedToDataURL      // the current window now shows the image
    | ObjectURLLinkClicked    // a hidden <a download> pointing at a blob URL was clicked
    | DataURLLinkClicked      // a hidden <a download> pointing at the data URL was clicked
    | Failed

  /** What the host does when the strategies run; the blob strategy runs at most once, so one answer each suffices. */
  datatype Host = Host(
    dataURLThrows: bool,   // toDataURL or writing the viewer page throws (data-URL strategy)
    popupOpens: bool,      // window.open returns a window
    toBlobThrows: bool,    // canvas.toBlob throws
    blobProduced: bool,    // the toBlob callback receives a blob
    base64Throws: bool)    // toDataURL or the link click throws (base64 strategy)

  /** The value the promise of a strategy resolves to. */
  predicate Resolves(e: Effect) {
    !e.Failed?
  }

  /** `downloadViaDataURL`: resolves `true` unless something throws, with or without a new window. */
  function DownloadViaDataURL(h: Host): (e: Effect)
    ensures Resolves(e) <==> !h.dataURLThrows
    ensures Resolves(e) ==> (e == ViewerWindowOpened <==> h.popupOpens)
    ensures e != ObjectURLLinkClicked && e != DataURLLinkClicked
  {
    if h.dataURLThrows then Failed
    else if h.popupOpens then ViewerWindowOpened
    else NavigatedToDataURL
  }

  /** `downloadViaBlob`: resolves `true` exactly when toBlob neither throws nor hands back no blob. */
  function DownloadViaBlob(h: Host): (e: Effect)
    ensures Resolves(e) <==> !h.toBlobThrows && h.blobProduced
    ensures Resolves(e) ==> e == ObjectURLLinkClicked
  {
    if h.toBlobThrows || !h.blobProduced then Failed else ObjectURLLinkClicked
  }

  /** `downloadViaBase64Link`: resolves `true` unless something throws. */
  function DownloadViaBase64Link(h: Host): (e: Effect)
    ensures Resolves(e) <==> !h.base64Throws
    ensures Resolves(e) ==> e == DataURLLinkClicked
  {
    if h.base64Throws then Failed else DataURLLinkClicked
  }

  function Run(s: Strategy, h: Host): Effect {
    match s
    case DataURL => DownloadViaDataURL(h)
    case Blob => DownloadViaBlob(h)
    case Base64Link => DownloadViaBase64Link(h)
  }

  // ----- downloadImage -----

  const MsgPreparing: string := "正在准备下载..."
  const MsgApkMode: string := "使用APK兼容模式..."
  const MsgMobileMode: string := "使用移动设备优化模式..."
  const MsgFallbackBase64: string := "降级到Base64模式..."
  const MsgStandardMode: string := "使用标准下载模式..."
  const MsgCompatMode: string := "使用兼容模式..."

  /** The path `downloadImage` takes through blob and then base64, once the APK case is ruled out. */
  function BlobThenBase64(host: Host): (tried: seq<Strategy>)
    ensures tried == [Blob] || tried == [Blob, Base64Link]
    ensures tried == [Blob] <==> Resolves(DownloadViaBlob(host))
  {
    if Resolves(DownloadViaBlob(host)) then [Blob] else [Blob, Base64Link]
  }

  /** The strategies `downloadImage` tries, in order, chosen by the environment flags in the order the source tests them. */
  function Attempts(env: Environment, host: Host): (tried: seq<Strategy>)
    ensures 1 <= |tried| <= 2
    ensures tried[0] == DataURL <==> env.isAPK
    ensures |tried| == 2 ==> tried == [Blob, Base64Link] && !Resolves(DownloadViaBlob(host))
  {
    if env.isAPK then [DataURL]
    else if env.isMobile && env.supportsBlob then BlobThenBase64(host)
    else if env.supportsBlob && env.supportsDownload then BlobThenBase64(host)
    else [Base64Link]
  }

  /**
   * Every strategy tried but the last failed and none is tried twice. An
   * APK web view tries the data URL alone, and nothing else ever tries it.
   * With blob support on a mobile, or on a desktop with downloads, blob
   * comes first and base64 follows only when blob failed; otherwise base64
   * is tried alone.
   */
  lemma AttemptsFallBack(env: Environment, host: Host)
    ensures var tried := Attempts(env, host);
      && (forall k :: 0 <= k < |tried| - 1 ==> !Resolves(Run(tried[k], host)))
      && multiset(tried)[DataURL] <= 1 && multiset(tried)[Blob] <= 1 && multiset(tried)[Base64Link] <= 1
      && (env.isAPK ==> tried == [DataURL])
      && (DataURL in tried <==> env.isAPK)
      && (!env.isAPK && env.supportsBlob && (env.isMobile || env.supportsDownload) ==>
            tried == [Blob] || (tried == [Blob, Base64Link] && !Resolves(DownloadViaBlob(host))))
      && (Blob in tried ==> tried[0] == Blob && (Resolves(DownloadViaBlob(host)) <==> tried == [Blob]))
      && (!env.isAPK && !(env.supportsBlob && (env.isMobile || env.supportsDownload)) ==> tried == [Base64Link])
  {
    var tried := Attempts(env, host);
    if !env.isAPK && env.supportsBlob && (env.isMobile || env.supportsDownload) {
      assert tried == BlobThenBase64(host);
    }
  }

  /**
   * Conversely, a page over http(s) in a browser with object URLs, whose
   * user agent has no `wv` and is not Android with `Version/`, is not taken
   * for an APK web view; with `Blob` and the `download` attribute it tries
   * blob first.
   */
  lemma OrdinaryBrowserTriesBlob(rt: Runtime, host: Host)
    requires !Contains(rt.userAgent, "wv")
    requires !(Contains(rt.userAgent, "Android") && Contains(rt.userAgent, "Version/"))
    requires rt.protocol != "file:" && rt.objectURLs
    ensures !DetectEnvironment(rt).isAPK
    ensures DetectEnvironment(rt).supportsBlob == rt.blobConstructor
    ensures rt.blobConstructor && rt.anchorDownload ==> Attempts(DetectEnvironment(rt), host)[0] == Blob
  {
  }

  /** The progress messages `downloadImage` reports: one before anything runs, then one before each attempt. */
  function Progress(env: Environment, host: Host): (messages: seq<string>)
    ensures |messages| == |Attempts(env, host)| + 1 && messages[0] == MsgPreparing
  {
    var blobFailed := !Resolves(DownloadViaBlob(host));
    if env.isAPK then [MsgPreparing, MsgApkMode]
    else if env.isMobile && env.supportsBlob then
      [MsgPreparing, MsgMobileMode] + (if blobFailed then [MsgFallbackBase64] else [])
    else if env.supportsBlob && env.supportsDownload then
      [MsgPreparing, MsgStandardMode] + (if blobFailed then [MsgCompatMode] else [])
    else [MsgPreparing, MsgCompatMode]
  }

  /**
   * `正在准备下载...` comes first, before any strategy runs, and then one
   * message announces each attempt: the mode first, and the fallback
   * message before base64 when blob failed.
   */
  lemma ProgressAnnouncesAttempts(env: Environment, host: Host)
    ensures var messages := Progress(env, host);
      && |messages| == |Attempts(env, host)| + 1 && messages[0] == MsgPreparing
      && (env.isAPK ==> messages[1] == MsgApkMode)
      && (!env.isAPK && env.isMobile && env.supportsBlob ==>
            messages[1] == MsgMobileMode && (|messages| == 3 ==> messages[2] == MsgFallbackBase64))
      && (!env.isAPK && !(env.isMobile && env.supportsBlob) && env.supportsBlob && env.supportsDownload ==>
            messages[1] == MsgStandardMode && (|messages| == 3 ==> messages[2] == MsgCompatMode))
      && (!env.isAPK && !(env.supportsBlob && (env.isMobile || env.supportsDownload)) ==> messages[1] == MsgCompatMode)
  {
  }

  /**
   * The strategy part of `downloadImage`, after the file name is made: the
   * strategies it tries in order, the progress messages it reports in
   * order, and the value it resolves to, that of the last strategy tried.
   */
  method RunStrategies(env: Environment, host: Host) returns (ok: bool, tried: seq<Strategy>, messages: seq<string>)
    ensures tried == Attempts(env, host) && messages == Progress(env, host)
    ensures ok == Resolves(Run(tried[|tried| - 1], host))
  {
    messages := [MsgPreparing];
    tried := [];

    if env.isAPK {
      messages := messages + [MsgApkMode];
      tried := tried + [DataURL];
      ok := Resolves(DownloadViaDataURL(host));
      return;
    }

    if env.isMobile && env.supportsBlob {
      messages := messages + [MsgMobileMode];
      tried := tried + [Blob];
      var success := Resolves(DownloadViaBlob(host));
      if success {
        ok := true;
        return;
      }
      messages := messages + [MsgFallbackBase64];
      tried := tried + [Base64Link];
      ok := Resolves(DownloadViaBase64Link(host));
      return;
    }

    if env.supportsBlob && env.supportsDownload {
      messages := messages + [MsgStandardMode];
      tried := tried + [Blob];
      var success := Resolves(DownloadViaBlob(host));
      if success {
        ok := true;
        return;
      }
    }

    messages := messages + [MsgCompatMode];
    tried := tried + [Base64Link];
    ok := Resolves(DownloadViaBase64Link(host));
  }

  /** `downloadImage`: the name it downloads under, then the strategies as `RunStrategies` runs them. */
  method DownloadImage(env: Environment, host: Host, fileName: string, iso: string)
    returns (ok: bool, finalFileName: string, tried: seq<Strategy>, messages: seq<string>)
    ensures finalFileName == GenerateFileName(fileName, DefaultPrefix, iso)
    ensures tried == Attempts(env, host) && messages == Progress(env, host)
    ensures ok == Resolves(Run(tried[|tried| - 1], host))
  {
    finalFileName := GenerateFileName(fileName, DefaultPrefix, iso);
    ok, tried, messages := RunStrategies(env, host);
  }

  /** A download succeeds exactly when some strategy it tried succeeded. */
  lemma DownloadSucceedsIffSomeAttemptDid(env: Environment, host: Host)
    ensures var tried := Attempts(env, host);
      Resolves(Run(tried[|tried| - 1], host)) <==> exists k :: 0 <= k < |tried| && Resolves(Run(tried[k], host))
  {
  }

  /** Without object URLs the page counts as an APK web view, so only the data-URL strategy is ever tried. */
  lemma NoObjectURLsMeansAPK(rt: Runtime)
    requires !rt.objectURLs
    ensures DetectEnvironment(rt).isAPK && !DetectEnvironment(rt).supportsBlob
  {
  }
}
