# Watermark tool: a verified Dafny model of its core

This project models the core of a browser app that lays a repeated, rotated
text watermark over an uploaded image and saves the result. The model covers
four parts:

- **The image utilities** (`src/utils/imageUtils.ts`), in `ImageUtils.dfy`:
  - the download name `watermarked_<base>.<ext>`;
  - the hex colour parser behind `makeRGBAStyle`.
- **The download utilities** (`src/utils/downloadUtils.ts`), in `DownloadUtils.dfy`:
  - environment detection from the runtime's observable flags;
  - the timestamped file name;
  - the three save strategies, reduced to what they leave in the page;
  - `downloadImage`, which picks strategies and falls back between them. It is a method that builds the list of strategies tried and the progress messages reported.
- **The component state** (`src/components/WatermarkApp.tsx`), in `WatermarkApp.dfy`. The image list and the selected id are the fields of the class `ImageGallery`. Its methods are:
  - `processSingleFile`;
  - the image's `onload` and `onerror` handlers;
  - `handleSelectImage`;
  - `handleDeleteImage`.

  Each method is proved against a function on the state value `Gallery`, and the file also holds the lemmas about those functions. The preview choice (`renderPreview`), the drawing effect's guard and the download name are pure functions there too.
- **The tiling of the drawing effect**, in `TileGrid.dfy`:
  - the tile counts `xCount` and `yCount`, over mathematical reals;
  - the nested loop that draws the text once per grid cell, as a method returning the trace of grid indices drawn.

Shared code:

- `Text.dfy` models the JavaScript string operations the core relies on:
  - `split('.').pop()`;
  - `replace` with a string pattern, which replaces only the first occurrence;
  - ASCII case mapping;
  - decimal digits.
- `Wrappers.dfy` holds `Option`.

Inputs the code reads from the browser are parameters of the model:

- the user agent and runtime capabilities;
- `new Date().toISOString()`;
- `uuidv4()` ids;
- object URLs;
- the outcome of each browser call that can throw or fail.

Conventions:

- `alpha` is carried as the text it prints as.
- A decoded image element is an opaque `nat` handle.

## Model

| member | source | states |
|---|---|---|
| Text.LastSegment | src/utils/imageUtils.ts:3 | `split(sep).pop()`: the result is a suffix without the separator, and the character before it is the separator whenever it is not the whole string |
| Text.IndexFrom | src/utils/imageUtils.ts:4 | the first position at or after `from` where the pattern occurs, or none when it does not occur there |
| Text.LastSegmentAfterLastDot | src/utils/imageUtils.ts:3 | for `t + "." + e` with no dot in `e`, the last dot segment is `e` |
| Text.FirstOccurrenceAfterBase | src/utils/imageUtils.ts:4 | in `b + "." + rest` with no dot in `b`, the first occurrence of `"." + e` (a prefix of `rest`) is at `\|b\|` |
| Text.ContainsOccurs | src/utils/downloadUtils.ts:11-12 | `includes` holds exactly when the pattern occurs at some position |
| Text.ReplaceFirst | src/utils/imageUtils.ts:4 | `replace` with a string pattern: the input unchanged when the pattern does not occur; otherwise the text around the first occurrence found by `indexOf`, with the replacement in between |
| Text.ReplaceFirstReplacesFirst | src/utils/imageUtils.ts:4 | what is replaced is an occurrence of the pattern with none before it; the input is the text before it, the pattern and the text after it; the length changes by the difference of the two lengths |
| Text.NatToDecimal | src/utils/imageUtils.ts:15 | the decimal text of a channel: digits only, no leading zero, and its value is the number |
| ImageUtils.GenerateFileName | src/utils/imageUtils.ts:2-6 | the name starts with `watermarked_` and ends with `.` followed by the text after the last dot |
| ImageUtils.GenerateFileNameSimple | src/utils/imageUtils.ts:3-5 | for `b.e` with no dot in `b` or `e`, the name is exactly `watermarked_b.e` |
| ImageUtils.GenerateFileNameNoDot | src/utils/imageUtils.ts:3-5 | a name `N` with no dot is its own extension and keeps its base: `watermarked_N.N` |
| ImageUtils.GenerateFileNameStripsFirstOccurrence | src/utils/imageUtils.ts:4 | only the first `.e` is removed: `b.e` + `m` + `.e` becomes `watermarked_` + `b` + `m` + `.e.e` |
| ImageUtils.HexValue | src/utils/imageUtils.ts:15 | a hex digit's value, below 16 |
| ImageUtils.PairValue | src/utils/imageUtils.ts:15 | `parseInt` of a two-digit hex pair, 16·hi + lo, below 256 |
| ImageUtils.ParseHexColor | src/utils/imageUtils.ts:9-15 | a channel triple exactly when the colour matches `#?` followed by three hex pairs; each channel is below 256 |
| ImageUtils.MakeRGBAStyle | src/utils/imageUtils.ts:8-16 | a colour that does not match gives `rgba(0, 0, 0, <alpha>)`; an accepted one gives `rgba(r, g, b, <alpha>)` with its three parsed channels in decimal |
| ImageUtils.StyleShape | src/utils/imageUtils.ts:8-16 | whatever the colour, the style starts `rgba(` and ends with `, <alpha>)` |
| ImageUtils.InvalidColorIsBlack | src/utils/imageUtils.ts:11-13 | any rejected colour gives the same text as `#000000` |
| ImageUtils.AcceptedLength | src/utils/imageUtils.ts:9 | an accepted colour has length 6 or 7, with `#` first when it has 7 |
| ImageUtils.HashIsOptional | src/utils/imageUtils.ts:9 | `#rrggbb` and `rrggbb` give the same style for every text |
| ImageUtils.ParseIgnoresCase | src/utils/imageUtils.ts:9 | upper-casing or lower-casing the colour leaves the parse unchanged |
| ImageUtils.StyleIgnoresCase | src/utils/imageUtils.ts:9 | upper-casing or lower-casing the colour leaves the style unchanged |
| ImageUtils.HexColor | src/utils/imageUtils.ts:9 | the canonical `#rrggbb` text of a channel triple: seven characters, `#` first, accepted by the colour pattern |
| ImageUtils.ParseHexColorRoundTrip | src/utils/imageUtils.ts:9-15 | parsing the canonical text of any triple with channels below 256 gives the triple back |
| ImageUtils.StyleOfHexColor | src/utils/imageUtils.ts:9-15 | the style of the `#rrggbb` text of any triple prints that triple's channels in decimal |
| ImageUtils.ParseHexColorCanonical | src/utils/imageUtils.ts:9-15 | an accepted colour's triple prints back as `#` and its digits in lower case |
| DownloadUtils.DetectEnvironment | src/utils/downloadUtils.ts:6-30 | these runtimes count as an APK web view: no object URLs, a `file:` page, a `wv` user agent, or Android with `Version/`. Blob support is exactly object URLs together with the `Blob` constructor, whatever the APK verdict; download support is exactly the anchor's `download` attribute and canvas support exactly `getContext`. `isAndroid` holds exactly when the user agent contains `Android`; `isIOS` exactly when it contains `iPad`, `iPhone` or `iPod`; `isMobile` exactly when the case-insensitive mobile test matches |
| DownloadUtils.MatchesAnyIgnoringCase | src/utils/downloadUtils.ts:17 | the mobile test holds exactly when one of the words occurs, at some position, in the lower-cased user agent |
| DownloadUtils.OrdinaryBrowserTriesBlob | src/utils/downloadUtils.ts:11-14 | conversely, an http(s) page with object URLs whose user agent has no `wv` and is not Android with `Version/` is not an APK web view; its blob support is the `Blob` constructor, and with downloads it tries blob first |
| DownloadUtils.AndroidAndIPhoneAreMobile | src/utils/downloadUtils.ts:17-23 | an Android, iPhone or iPod user agent counts as mobile |
| DownloadUtils.NoObjectURLsMeansAPK | src/utils/downloadUtils.ts:11-26 | without `URL.createObjectURL` the page counts as an APK web view and has no blob support |
| DownloadUtils.Timestamp | src/utils/downloadUtils.ts:36 | the first 19 characters of the ISO time with `:` and `.` turned into `-`: same characters elsewhere, and neither `:` nor `.` |
| DownloadUtils.TimestampOfIso | src/utils/downloadUtils.ts:36 | for an ISO time `YYYY-MM-DDTHH:mm:ss.sssZ`, the timestamp is its date, `T` and time to the second with `-` separators |
| DownloadUtils.Extension | src/utils/downloadUtils.ts:34 | the last dot segment, or `png` when that is empty; never empty and never holds a dot |
| DownloadUtils.GenerateFileName | src/utils/downloadUtils.ts:33-38 | the name is `<prefix>_` … `_<timestamp>.<extension>` |
| DownloadUtils.GenerateFileNameSimple | src/utils/downloadUtils.ts:33-38 | for `b.e` with no dot in `b` or `e`, the name is exactly `<prefix>_b_<ts>.e` |
| DownloadUtils.GenerateFileNameTrailingDot | src/utils/downloadUtils.ts:34-35 | a name `b.` (empty last segment) gets the `png` extension and keeps its trailing dot: `<prefix>_b._<ts>.png` |
| DownloadUtils.GenerateFileNameNoDot | src/utils/downloadUtils.ts:34-35 | a name `N` with no dot: `<prefix>_N_<ts>.N` |
| DownloadUtils.DistinctSecondsGiveDistinctNames | src/utils/downloadUtils.ts:36-37 | two ISO times that differ to the second give two different names for the same file |
| DownloadUtils.DownloadViaDataURL | src/utils/downloadUtils.ts:41-167 | resolves `true` exactly when nothing throws; a viewer window when `window.open` gives one, otherwise the page itself navigates to the image |
| DownloadUtils.DownloadViaBlob | src/utils/downloadUtils.ts:170-201 | resolves `true` exactly when `toBlob` does not throw and produces a blob; then an object-URL link was clicked |
| DownloadUtils.DownloadViaBase64Link | src/utils/downloadUtils.ts:204-223 | resolves `true` exactly when nothing throws; then a data-URL link was clicked |
| DownloadUtils.BlobThenBase64 | src/utils/downloadUtils.ts:243-262 | blob alone when it succeeds, otherwise blob then base64 |
| DownloadUtils.Attempts | src/utils/downloadUtils.ts:236-262 | one or two strategies; the data URL comes first exactly in an APK web view; two are tried only as blob then base64, after blob failed |
| DownloadUtils.AttemptsFallBack | src/utils/downloadUtils.ts:236-262 | every strategy tried but the last failed and none is tried twice. An APK web view tries the data URL alone, whatever the other flags say, and only it tries the data URL. With blob support on a mobile, or on a desktop with downloads, blob comes first and base64 follows only when blob failed; otherwise base64 is tried alone |
| DownloadUtils.Progress | src/utils/downloadUtils.ts:234-261 | one message more than strategies tried, `正在准备下载...` first |
| DownloadUtils.ProgressAnnouncesAttempts | src/utils/downloadUtils.ts:234-261 | `正在准备下载...` comes first, before any strategy runs. Then one message announces each attempt: the mode message, then the fallback message before base64 when blob failed |
| DownloadUtils.DownloadSucceedsIffSomeAttemptDid | src/utils/downloadUtils.ts:226-263 | the download resolves `true` exactly when some strategy it tried succeeded |
| DownloadUtils.RunStrategies | src/utils/downloadUtils.ts:234-262 | the early-return sequence tries exactly `Attempts`, reports exactly `Progress`, and resolves to the last attempt's result |
| DownloadUtils.DownloadImage | src/utils/downloadUtils.ts:226-263 | downloads under `generateFileName`'s name with the default prefix, then runs the strategies as `RunStrategies` does |
| WatermarkApp.Find | src/components/WatermarkApp.tsx:172 | `images.find` by id: an item of the list with that id, and none exactly when the id is null or absent |
| WatermarkApp.FindUnique | src/components/WatermarkApp.tsx:172 | with unique ids, finding an item's id gives that item |
| WatermarkApp.CheckFile | src/components/WatermarkApp.tsx:88-104 | a file is accepted exactly when it is present, png/jpeg/gif, and matches no listed file by name and size |
| WatermarkApp.Add | src/components/WatermarkApp.tsx:87-116 | a rejected file changes nothing. An accepted one appends one item with no element and leaves earlier items alone. The selection changes only when it was empty, and then to the new id; an accepted file with nothing selected always becomes the selection |
| WatermarkApp.AddPreservesValid | src/components/WatermarkApp.tsx:105-116 | adding with a fresh id keeps ids unique and the selection pointing at a listed image |
| WatermarkApp.SetElement | src/components/WatermarkApp.tsx:120-124 | the map keeps the length and every item's id, file and `src`; exactly the items with the id get the element, the others keep theirs |
| WatermarkApp.Loaded | src/components/WatermarkApp.tsx:118-126 | `onload`: sets the element on that id's item and leaves the selection |
| WatermarkApp.LoadedPreservesValid | src/components/WatermarkApp.tsx:118-126 | `onload` keeps the state valid |
| WatermarkApp.RemoveId | src/components/WatermarkApp.tsx:130 | the filter: every remaining item is from the list and lacks the id; it is no longer than the list |
| WatermarkApp.RemoveIdHasId | src/components/WatermarkApp.tsx:130 | after the filter, an id is present exactly when it was present and is not the removed one |
| WatermarkApp.RemoveIdAt | src/components/WatermarkApp.tsx:130 | with unique ids, filtering the id at position p removes exactly position p and keeps the order of the rest |
| WatermarkApp.RemoveIdAbsent | src/components/WatermarkApp.tsx:130 | filtering an absent id leaves the list as it was |
| WatermarkApp.RemoveIdPreservesUnique | src/components/WatermarkApp.tsx:130 | the filter keeps ids unique |
| WatermarkApp.LoadFailed | src/components/WatermarkApp.tsx:127-134 | `onerror`, corrected: the list is exactly the filter by that id, so the id is gone, and the selection is cleared exactly when it was that id |
| WatermarkApp.LoadFailedPreservesValid | src/components/WatermarkApp.tsx:127-134 | the corrected `onerror` keeps the state valid |
| WatermarkApp.AddThenLoadFailedRestores | src/components/WatermarkApp.tsx:105-134 | with the correction, a file that fails to load leaves the gallery exactly as before it was added |
| WatermarkApp.LoadFailedAsWritten | src/components/WatermarkApp.tsx:127-134 | `onerror` as written: it removes the id and compares against the selection captured when the file was processed |
| WatermarkApp.LoadFailedAsWrittenKeepsSelection | src/components/WatermarkApp.tsx:113-131 | as written, a failed load never undoes the selection that adding the file made |
| WatermarkApp.LoadFailedAsWrittenDangles | src/components/WatermarkApp.tsx:127-134 | a png that fails to load in an empty gallery, as written, leaves no images but a selected id. The next file is then not selected and the preview asks for a choice; the corrected handler gives back the empty gallery |
| WatermarkApp.Select | src/components/WatermarkApp.tsx:328-337 | the list stays; the selection becomes the id only when it is listed, otherwise it stays |
| WatermarkApp.SelectPreservesValid | src/components/WatermarkApp.tsx:328-337 | selecting keeps the state valid |
| WatermarkApp.Delete | src/components/WatermarkApp.tsx:339-349 | the list is exactly the filter by that id, so the id is gone. A selected deleted id passes the selection to the first remaining image, or to null when none remains; any other selection stays |
| WatermarkApp.DeleteRemovesPosition | src/components/WatermarkApp.tsx:344 | deleting the image at position p removes exactly that position and keeps the order of the rest |
| WatermarkApp.DeletePreservesValid | src/components/WatermarkApp.tsx:339-349 | deleting keeps the state valid |
| WatermarkApp.RevokedOnDelete | src/components/WatermarkApp.tsx:340-343 | only a `blob:` URL that is the `src` of an image with the id is revoked; nothing is revoked for an absent id |
| WatermarkApp.RevokedOnDeleteAt | src/components/WatermarkApp.tsx:340-343 | with unique ids, the deleted image's own `src` is revoked exactly when it starts with `blob:` |
| WatermarkApp.PreviewOf | src/components/WatermarkApp.tsx:171-205 | the empty prompt exactly when there are no images; the spinner only for a listed selected id; the pick prompt only with images and no truthy, listed selection; the canvas only for a listed, selected, loaded image |
| WatermarkApp.PreviewCases | src/components/WatermarkApp.tsx:171-205 | the preview shows one of four views. The empty prompt shows exactly when there are no images, and the pick-an-image prompt exactly when images exist but none is selected. The spinner shows exactly when the selected image has no element yet, and the canvas exactly when it has one |
| WatermarkApp.EffectDraws | src/components/WatermarkApp.tsx:258-261 | the effect passes its guard only when an image with the selected id has its element |
| WatermarkApp.EffectDrawsIffCanvasShown | src/components/WatermarkApp.tsx:258-261 | the drawing effect goes past its guard exactly when the preview shows the canvas |
| WatermarkApp.GenerateCustomFileName | src/components/WatermarkApp.tsx:351-355 | the same name as `generateFileName` of the image utilities: `watermarked_` first, the last dot segment as extension |
| WatermarkApp.DownloadName | src/components/WatermarkApp.tsx:357-368 | a name exactly when a listed image is selected, starting `watermarked_`, and made by `GenerateCustomFileName` from the file name of a listed image with the selected id |
| WatermarkApp.DownloadNameOfSelected | src/components/WatermarkApp.tsx:357-368 | with unique ids, the name is `GenerateCustomFileName` of the selected image's own file name |
| WatermarkApp.ImageGallery.constructor | src/components/WatermarkApp.tsx:80-81 | no images and nothing selected |
| WatermarkApp.ImageGallery.ProcessSingleFile | src/components/WatermarkApp.tsx:87-116 | the new state is `Add` of the old, the verdict is `CheckFile`'s, and the state stays valid |
| WatermarkApp.ImageGallery.OnImageLoad | src/components/WatermarkApp.tsx:118-126 | the new state is `Loaded` of the old and stays valid |
| WatermarkApp.ImageGallery.OnImageError | src/components/WatermarkApp.tsx:127-134 | the new state is the corrected `LoadFailed` of the old and stays valid |
| WatermarkApp.ImageGallery.HandleSelectImage | src/components/WatermarkApp.tsx:328-337 | the new state is `Select` of the old and stays valid |
| WatermarkApp.ImageGallery.HandleDeleteImage | src/components/WatermarkApp.tsx:339-349 | the revoked URL is `RevokedOnDelete`'s; the new state is `Delete` of the old and stays valid |
| TileGrid.DrawGrid | src/components/WatermarkApp.tsx:287-294 | draws (2x+1)(2y+1) times. Every draw is in the grid and every grid cell is drawn exactly once. The origin comes last; the draws before it follow row-major order |
| TileGrid.Ceil | src/components/WatermarkApp.tsx:281-282 | `Math.ceil`: the least integer not below the argument |
| TileGrid.XCount | src/components/WatermarkApp.tsx:281 | `xCount` tiles of width text plus margin reach the diagonal, and one fewer would not |
| TileGrid.YCount | src/components/WatermarkApp.tsx:282 | `yCount` rows of the row step reach half the diagonal, and one fewer would not |
| TileGrid.FontSize | src/components/WatermarkApp.tsx:270 | the font size is the size times the larger of 15 and a 25th of the shorter side: at least both, and equal to one of them |
| TileGrid.RowStep | src/components/WatermarkApp.tsx:282 | the row spacing is the spacing times the font size, and at least 15 times size times spacing, so positive |
| TileGrid.DrawTiles | src/components/WatermarkApp.tsx:270-294 | nothing is drawn when the text width is at most 0. Otherwise the counts are `XCount` of text plus margin and `YCount` of the row step from `FontSize`, and the grid is drawn once per cell, the origin last |
| TileGrid.NearestIndex | src/components/WatermarkApp.tsx:287-292 | the tile index nearest a coordinate: the floor of the coordinate in spacings plus one half |
| TileGrid.NearestIndexDistance | src/components/WatermarkApp.tsx:287-292 | the nearest tile is within half a spacing of the coordinate |
| TileGrid.CanvasPointsWithinHalfDiagonal | src/components/WatermarkApp.tsx:280-285 | every canvas point, taken from the centre, is within half the diagonal |
| TileGrid.HalfDiagonalBound | src/components/WatermarkApp.tsx:280-286 | a point within half the diagonal of the centre, in any rotated frame, is within half the diagonal along each axis |
| TileGrid.CountsReachHalfDiagonal | src/components/WatermarkApp.tsx:281-282 | both counts, times their spacing, reach at least half the diagonal |
| TileGrid.AxisCovered | src/components/WatermarkApp.tsx:287-292 | along one axis, the nearest tile to a coordinate within reach is drawn and within half a spacing |
| TileGrid.GridCoversRotatedCanvas | src/components/WatermarkApp.tsx:279-294 | no gap after rotation: every point within half the diagonal on both rotated axes is within half a tile of a drawn cell |

## Left out

- Canvas work is not modelled: drawing, text measurement, fonts, `translate`, `rotate` and `drawImage`. The drawing is the trace of grid indices. The text width, margin, canvas sides and diagonal are inputs, taken as exact reals rather than floating-point numbers.
- `Math.sqrt` is not computed. The diagonal is an input whose square is the sum of the squared sides, in `CanvasPointsWithinHalfDiagonal` and `DrawTiles`.
- The rotation angle is not modelled. Coverage is stated for points of the rotated frame within half the diagonal of the centre, which every canvas point is whatever the angle.
- TileGrid.DrawTiles: requires a positive size and spacing and a non-negative margin. The form's sliders keep spacing and size at least 1 and 0.5. A measured width is never negative.
- Reading `navigator`, `window` and `document` in `detectEnvironment` is not modelled. The user agent and the capabilities are fields of `Runtime`.
- The DOM work of the three strategies is not modelled: links, clicks, `window.open`, the viewer page's HTML and script, `setTimeout` and `revokeObjectURL`. Each strategy is reduced to what it leaves in the page and the value it resolves to.
- DownloadUtils.DownloadViaBlob: an exception thrown inside the `toBlob` callback, which would leave the promise unresolved, is not modelled. A failure there counts as resolving `false`.
- DownloadUtils.DownloadImage: progress messages are recorded whether or not a callback was passed. Without one, nothing observable is lost but the messages.
- Ids from `uuidv4()` and URLs from `URL.createObjectURL` are not generated. They are parameters, and each method requires the id to be fresh.
- The cleanup effect at `src/components/WatermarkApp.tsx` lines 380-388, which revokes the `blob:` URL of every listed image whenever the list changes, is not modelled. Only the revocation on delete is, in `RevokedOnDelete`.
- The Chinese warning and error toasts, `console` output and the thumbnail rendering are not modelled.
- WatermarkApp.ImageGallery.ProcessSingleFile: each call sees the state left by the previous one. When several files arrive in one upload batch, the component's closures may still hold the state from before the batch. Which one they see depends on when the upload widget calls `beforeUpload` relative to React re-rendering, which is outside this code.
- ImageUtils.MakeRGBAStyle: `alpha` is the text JavaScript would print for the number; number formatting is not modelled.
- `dataURItoBlob` is not part of this model: `WatermarkApp.tsx` imports it from `imageUtils.ts`, which does not define it.
- The service worker, the hooks (`useDebounce`, `useOrientation`, `useScreenHeight`), `deviceDetection.ts` and the UI-only components are not modelled.
- The watermark settings (text, colour, alpha, angle, spacing, size), their debouncing and the reset handler are not modelled.

## Findings

| source | as written | input that shows it | evidently intended | confidence | as-written member | corrected member |
|---|---|---|---|---|---|---|
| src/components/WatermarkApp.tsx:131 | `onerror` compares the failed id with `selectedImageId` as captured when `processSingleFile` ran, before line 115 selected the new image. A failing image that was auto-selected is never deselected | an empty gallery; one png is added and fails to load. The list becomes empty while the selection still names the removed id. The next file added is not selected, and the preview asks the user to pick an image | clear the selection when it is the failed image, so a failed add leaves the gallery as before | not executed | WatermarkApp.LoadFailedAsWritten (shown by WatermarkApp.LoadFailedAsWrittenDangles and WatermarkApp.LoadFailedAsWrittenKeepsSelection) | WatermarkApp.LoadFailed (WatermarkApp.AddThenLoadFailedRestores, WatermarkApp.LoadFailedPreservesValid; used by WatermarkApp.ImageGallery.OnImageError) |
