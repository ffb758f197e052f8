# MediaTracker extension — a Dafny model

This is a model of the logic of the MediaTracker browser extension, with
proofs about it. The extension records every `<video>` and `<audio>`
element it sees on the pages a user visits, and keeps a capped,
de-duplicated history in local storage. A toolbar popup shows the ten most
recent entries. A full-history page searches, filters, sorts and downloads
them.

The model has eight modules:

- `Media` (media.dfy): the history entry, the `MEDIA_DETECTED` message, and `Option`.
- `Text` (text.dfy): the string operations the scripts chain together:
  - `trim` and `replace(/\s+/g, ' ')`;
  - `toLowerCase`;
  - `split` and `join` on one character;
  - the "capitalise each word" map;
  - `includes`.
- `FileNames` (filenames.dfy): `sanitizeFilename` and `getFileExtension`.
  newtab/newtab.js:64-73 and popup/popup.js:63-72 define them identically, so they are defined once here.
- `Sorting` (sorting.dfy): `Array.prototype.sort` with a comparator that compares one integer key. Since ECMAScript 2019 this sort is stable, so it is written as a stable insertion sort by that key.
- `Background` (background.js): the store's message listener.
  - The storage slot is a class, `MediaStore`, with a `stored` field. `None` means the `mediaHistory` key is missing.
  - `HandleMessage` updates the slot and is proved equal to the pure `Handle`.
- `Newtab` (newtab/newtab.js):
  - `escapeHtml`, and the reading-back of escaped text (`Unescape`);
  - the filter predicate and the sort comparator of `filterMedia`, and the reset of `clearFilters`;
  - the page-level `mediaHistory`, modelled as the class `HistoryPage`, which the storage callbacks reassign.
- `Popup` (popup/popup.js):
  - `formatTitle` and `truncateText`;
  - `slice(0, 10)`;
  - the text that each row inserts into the page, and the download name.
- `Content` (content.js):
  - `extractTitleFromUrl` and `extractSmartTitle`;
  - the record built by `extractMediaInfo`;
  - the `detectMedia` pass. Each element is a `MediaNode` object whose `logged` field (its `dataset.logged`) the method sets. A video's thumbnail capture resolves, is rejected, or never settles (`Capture`); at a capture that never settles the pass waits forever.

A JavaScript string is a `seq<char>`, one `char` per UTF-16 code unit.
A Dafny `char` cannot be half of a surrogate pair, so strings holding
characters outside the Basic Multilingual Plane are not covered (see "Left
out"). None of the regular expressions has the `u` flag.

- `\s` and `trim` use the full ECMAScript WhiteSpace and LineTerminator set.
- Case mapping covers ASCII letters only. Without `u`, `/i` folds only ASCII letters onto `mp4`, `mp3`, `wav` and `webm`, so comparing ASCII-lower-cased text is exact for `getFileExtension`.

Timestamps are integers. Some source parts are parameters of the model:

- the url parser and `decodeURIComponent`: partial functions `string -> Option<string>`, where `None` is a thrown exception;
- `localeCompare`: a collation rank `collate: string -> int`;
- the clock and the thumbnail capture: values passed in for each element.

Where the code and the design description of the system disagree, the model follows the code:

- There is no `DELETE_MEDIA` handler in background.js, so the model has no delete operation.
- The `'title'` sort compares the raw `title` (newtab/newtab.js:106), not a formatted title.
- The download name gets its extension from the title through `getFileExtension` (newtab/newtab.js:66, popup/popup.js:65), not from the media url.
- The store's read and write are two asynchronous storage calls (background.js:4,14), not an atomic step (see "Left out").

## Model

| member | source | states |
|---|---|---|
| Background.MediaStore.History | background.js:5 | a missing `mediaHistory` key reads as the empty history |
| Background.MediaStore.HandleMessage | background.js:3-17 | other message types and duplicate keys leave the slot untouched; otherwise the payload is prepended and the history capped; the new slot is `Handle(old slot, m)`, and the unique-key / at-most-1000 invariant is kept |
| Background.OtherMessagesIgnored | background.js:3 | a message whose type is not `MEDIA_DETECTED` changes nothing |
| Background.MissingHistoryIsEmpty | background.js:5 | a missing history behaves exactly as an empty one: the result is `[payload]` |
| Background.FirstSeenWins | background.js:7-12 | when some entry has the payload's (url, pageUrl), nothing is written and the stored entry keeps its timestamp and thumbnail |
| Background.PrependShape | background.js:13-15 | the payload is entry 0, the old entries follow in order, and only a tail of the old history is dropped |
| Background.PrependLength | background.js:15 | below the cap the history grows by exactly one; at or above it the result has exactly 1000 entries; within the cap stays within it |
| Background.PrependKeepsValid | background.js:7-15 | prepending a payload with a new key keeps keys unique and the length within the cap |
| Background.HandleKeepsValid | background.js:3-17 | handling any message keeps the unique-key / at-most-1000 invariant |
| Background.HandleRecordsKey | background.js:7-15 | after a `MEDIA_DETECTED` message the payload's key is present in the stored history |
| Background.HandleIdempotent | background.js:7-16 | handling the same message twice gives the same history as handling it once |
| Background.HandleAllKeepsValid | background.js:2-21 | any sequence of messages, each handled atomically, keeps the invariant |
| Background.RacesNeverDuplicate | background.js:4-16 | when listener calls interleave, each reading the initial slot or an earlier call's write and writing its own result, every value written still has unique keys and at most 1000 entries |
| Background.RaceLosesEntry | background.js:4-16 | two detections with different keys that both read the missing slot form a valid interleaving whose later write lacks the first entry, so a race can lose an entry |
| Background.SecondDetectionKeepsFirst | background.js:7-16 | detecting the same (url, pageUrl) at T1 and then at T2 leaves one entry, the one stamped T1 |
| Sorting.SortByKey | newtab/newtab.js:99-110 | the sorted sequence is a permutation of the input whose keys never decrease |
| Sorting.SortStable | newtab/newtab.js:99-110 | for every key value, the elements with that key keep their input order |
| Sorting.SortConstantKey | newtab/newtab.js:107-108 | a comparator that always returns 0 leaves the order unchanged |
| Text.LowerShape | newtab/newtab.js:85-87 | lower-casing keeps the length, leaves no ASCII upper-case letter, changes exactly the code units that were ASCII upper-case, and keeps every code unit the same up to case |
| Text.LowerWithoutUpper | popup/popup.js:49 | text without ASCII upper-case letters is unchanged by lower-casing |
| Text.LowerIdempotent | newtab/newtab.js:77-87 | an algebraic fact about the lower-casing helper: it is idempotent (the page lower-cases each string once) |
| Text.TrimStart | popup/popup.js:45 | only leading whitespace is removed, and the result does not start with whitespace |
| Text.TrimEnd | popup/popup.js:45 | only trailing whitespace is removed, and the result does not end with whitespace |
| Text.TrimContained | popup/popup.js:45 | the trimmed string occurs in the input |
| Text.TrimShape | popup/popup.js:45 | the trimmed string occurs in the input and has no whitespace at either end |
| Text.CollapseSpaces | popup/popup.js:45 | the shape of `replace(/\s+/g, ' ')`: never longer, empty iff the input is, whitespace at an end iff the input has it there, no two whitespace code units in a row, and ' ' as the only whitespace (what is kept is stated by `CollapseKeepsText` and `CollapseSpacesSnoc`) |
| Text.CollapseKeepsText | popup/popup.js:45 | collapsing changes only whitespace: with every whitespace code unit removed, the input and the result are equal |
| Text.CollapseSpacesSnoc | popup/popup.js:45 | appending a non-whitespace code unit to the input appends it to the result; appending whitespace after whitespace changes nothing; appending whitespace after anything else appends one ' '. With the empty input giving the empty result, this fixes the result of every input |
| Text.CollapseWordThenRest | popup/popup.js:45 | a leading stretch without whitespace is kept as it is, and the rest is collapsed on its own |
| Text.NormalizedShape | popup/popup.js:45 | trim then collapse: no whitespace at either end, no run of two, only ' ' as whitespace |
| Text.Split | popup/popup.js:48 | `split` gives at least one word, and the first word is a prefix of the string |
| Text.SplitWordsAvoidSep | popup/popup.js:48 | no word that `split` gives contains the separator |
| Text.JoinSplit | popup/popup.js:48-50 | joining the split words with the same separator gives back the string |
| Text.SplitJoin | content.js:60-62 | splitting a join of separator-free words gives back the words |
| Text.CapitalizeWordShape | popup/popup.js:49 | a capitalised word equals the word up to case, starts with no lower-case letter and has no upper-case letter after that |
| Text.TitleCaseTwoWords | popup/popup.js:48-50 | two space-free words joined by one space are capitalised word by word, and the space is kept |
| Text.TitleCaseOneWord | popup/popup.js:48-50 | a title without ' ' is capitalised as one word |
| Text.TitleCaseWords | popup/popup.js:48-50 | capitalising each word keeps the word list's shape and the string's length |
| Text.TitleCaseAvoids | content.js:60-62 | capitalising introduces no code unit of a case-closed set without ' ' |
| Text.TitleCaseFirst | content.js:60-62 | the first code unit of the result is the upper-cased first code unit of the input |
| FileNames.GetFileExtension | newtab/newtab.js:70-73 | the result is empty or 4 or 5 code units long; a non-empty result is a suffix of the name that is `.mp4`, `.mp3`, `.wav` or `.webm` in any ASCII case, in its original case |
| FileNames.GetFileExtensionComplete | newtab/newtab.js:70-73 | any suffix of the name that is a media extension is exactly the extension found; with the function's own ensures, the result is empty exactly when no suffix of the name is a media extension |
| FileNames.Mp4Extension | newtab/newtab.js:71 | any name followed by `.mp4` has exactly `.mp4` as its extension |
| FileNames.SanitizeBase | newtab/newtab.js:66 | every code unit of the result is in `[A-Za-z0-9_-]`; a code unit is kept exactly when it is in that set, and every changed one became '_'; the length is kept |
| FileNames.SanitizeFilename | newtab/newtab.js:65-67 | for a name of n code units, the first n code units are all in `[A-Za-z0-9_-]`, each equal to the input code unit iff that one is safe; then comes `getFileExtension` of the original name, so the length is n, n+4 or n+5 |
| FileNames.MediaExtensionLength | newtab/newtab.js:71 | a matched extension is four or five code units long |
| FileNames.ExtensionOfExtension | newtab/newtab.js:70-73 | an algebraic fact about `getFileExtension`: the extension found, taken alone, has itself as its extension (the page calls it once per name) |
| FileNames.SanitizeExample | newtab/newtab.js:65-73 | "clip.mp4" gives "clip_mp4.mp4": the dot is replaced in the base and the extension is appended again |
| FileNames.SanitizePlainExample | newtab/newtab.js:65-73 | "My Song" gives "My_Song", with no extension added |
| Newtab.EscapeHtmlPerCharacter | newtab/newtab.js:55-62 | since `&` is replaced first, the chain equals escaping each code unit on its own, so no entity is escaped twice |
| Newtab.EscapeHtmlAvoidsMarkup | newtab/newtab.js:55-62 | the escaped text contains none of `<`, `>`, `"` and `'` |
| Newtab.EscapeHtmlIdentity | newtab/newtab.js:56-61 | text without `& < > " '` is returned unchanged |
| Newtab.EscapeHtmlRoundTrip | newtab/newtab.js:37-46 | decoding the five character references that `escapeHtml` produces (`&amp;`, `&lt;`, `&gt;`, `&quot;`, `&#039;`) in the escaped text gives exactly the original text; this is how `data-filename` reads back into `dataset.filename` for text without CR or NUL (see "Left out") |
| Newtab.UnescapeWithoutAmp | newtab/newtab.js:37-46 | text without `&` holds no character reference and reads back as it is |
| Newtab.FilterHistory | newtab/newtab.js:83-96 | each entry occurs in the result as often as in the history when it matches the search, type and date conditions, and not at all otherwise |
| Newtab.FilterIsSubsequence | newtab/newtab.js:83-96 | the filtered entries keep their stored order |
| Newtab.ClearedMatchesAll | newtab/newtab.js:116-121 | with the cleared controls every entry matches, so filtering returns the whole history |
| Newtab.SelectMembers | newtab/newtab.js:83-110 | an entry is shown iff it is stored and matches all four conditions |
| Newtab.SelectExample | newtab/newtab.js:83-110 | entries ("Beta", video, 2), ("alpha", audio, 1), ("Gamma", video, 3) with type "video", newest first, give [Gamma, Beta] |
| Newtab.HistoryPage.constructor | newtab/newtab.js:1 | the page starts with an empty history |
| Newtab.HistoryPage.Load | newtab/newtab.js:128-131 | the page's history becomes the stored one, or empty when missing |
| Newtab.HistoryPage.OnStorageChanged | newtab/newtab.js:142-147 | a change that does not touch `mediaHistory` keeps the page's history; one that does replaces it with the new value or empty |
| Newtab.HistoryPage.FilterMedia | newtab/newtab.js:76-113 | what is shown is the matching entries, each as often as stored; newest gives non-increasing and oldest non-decreasing timestamps; title follows the collation rank; an unknown `sortBy` keeps the filtered order; equal keys keep the filtered order |
| Newtab.HistoryPage.ClearFilters | newtab/newtab.js:116-123 | the controls are reset and every stored entry is shown, newest first |
| Popup.StripMediaExtension | popup/popup.js:53 | at most one trailing media extension is removed, and the title is unchanged iff it has none |
| Popup.StripKeepsFirst | popup/popup.js:53 | removing the extension never removes the first code unit of a title that does not start with '.' |
| Popup.TruncateText | popup/popup.js:59-61 | text within the limit is returned as is; longer text keeps its first `maxLength` code units followed by "...", `maxLength + 3` in all |
| Popup.TruncateTextIdempotent | popup/popup.js:59-61 | truncating twice to the same length is the same as truncating once |
| Popup.PopupItemsShape | popup/popup.js:6 | the popup lists exactly the first min(10, n) stored entries, in stored order, and nothing when the history is missing |
| Popup.FormatTitleLength | popup/popup.js:43-56 | `formatTitle`, with ASCII case mapping, never makes a title longer |
| Popup.NormalizeWhitespaceShape | popup/popup.js:45 | after the whitespace step there is no whitespace at either end, no run of two, and only ' ' |
| Popup.NormalizeTwoWords | popup/popup.js:45 | two non-empty words without whitespace joined by one ' ' are left as they are by the whitespace step |
| Popup.TitleCaseExample | popup/popup.js:48-50 | "clip .mp4" is capitalised to "Clip .mp4" |
| Popup.FormatTitleCanEndInSpace | popup/popup.js:43-56 | `formatTitle("clip .mp4")` is exactly "Clip ": the extension is removed after trimming, so the result ends in a space |
| Popup.RowAsWrittenInjectsMarkup | popup/popup.js:17-24 | as written, a title without whitespace that starts with `<` (such as `<b>x</b>`) puts a `<` into the row's `innerHTML` |
| Popup.RowIsInert | popup/popup.js:17-24 | escaped row text contains no markup code unit and reads back as exactly the formatted, truncated text |
| Popup.PopupRows | popup/popup.js:6-28 | the corrected popup (see "Findings"): one row per listed entry, its text escaped as newtab/newtab.js:28-37 escapes it; each row is free of markup and reads back as that entry's formatted, truncated title and truncated url |
| Popup.DownloadNameShape | popup/popup.js:26-36 | the corrected download name (see "Findings") is `sanitizeFilename` of the formatted title: a safe code unit per code unit of that title, followed by the extension the title still ends in |
| Popup.UpToQuote | popup/popup.js:26 | the unescaped attribute value is the longest prefix of the text without `"`: it stops at the first `"` or at the end |
| Popup.ReadBackOfPlainText | popup/popup.js:26-36 | text without `"` and `&` reads back from the unescaped `data-filename` attribute as it is |
| Popup.DownloadNameAsWrittenPlain | popup/popup.js:26-36 | as written, the download name equals the corrected one whenever the formatted title holds no `"` and no `&` |
| Popup.QuoteTitleFormat | popup/popup.js:43-56 | `formatTitle("a\"b.mp4")` is `A"b` |
| Popup.DownloadNameQuoteExample | popup/popup.js:26-36 | as written, an entry titled `a"b.mp4` downloads as "A", because the `"` ends the attribute value; the corrected name is "A_b" |
| Content.StripDotSuffixShape | content.js:56 | `replace(/\.[^/.]+$/, '')` gives a prefix; it is shorter exactly when the pattern matches somewhere, and then exactly one match was removed |
| Content.SeparatorsToSpacesShape | content.js:58 | no `-`, `_` or `+` is left; a code unit is kept exactly when it is none of them, and every changed one became a space; the length is kept |
| Content.SeparatorsToSpacesIdempotent | content.js:58 | an algebraic fact about the separator replacement: it is idempotent (the script applies it once) |
| Content.SplitLastSegment | content.js:54 | the last word of `split` is a suffix of the string, preceded by the separator unless it is the whole string |
| Content.LastSegmentShape | content.js:54-56 | the decoder sees a '/'-free suffix of the path that is the whole path or follows a '/', minus at most one extension: what is removed is a single match of `/\.[^/.]+$/` at its end |
| Content.UrlTitleFailures | content.js:51-66 | a url that does not parse, or a segment that does not decode, gives the empty title |
| Content.UrlTitleHasNoSeparators | content.js:56-62 | the url title contains no `-`, `_` or `+` |
| Content.ExtractSmartTitle | content.js:87-111 | the chosen title is never empty |
| Content.FirstTruthyIsFirst | content.js:89-110 | when candidate k is truthy and none before it is, the result is candidate k's value |
| Content.FirstTruthyNone | content.js:89-110 | when no candidate is truthy, the result is the fallback |
| Content.SmartTitleIsFirstTruthy | content.js:87-111 | the chain returns the first truthy source in the order: element title or aria-label, heading, og:title, meta title, page title (unless "newtab"), url title, then "Untitled Media" |
| Content.NewTabPageTitleSkipped | content.js:102-103 | a page titled "newtab" gets the same title as a page with no title |
| Content.NewTabNeverFromPageTitle | content.js:102-110 | "newtab" is returned only when the element, the heading or a meta tag says so, because the url title starts with a capital |
| Content.MediaInfoShape | content.js:114-134 | the type is the lower-cased tag name, the url is `src` or else `currentSrc`, the title is non-empty, only a video carries a thumbnail, and the timestamp and page url are the inputs |
| Content.DetectMedia | content.js:137-149 | the pass visits the elements in order and stops for good at the first unflagged video whose capture never settles (`StallIndex`); `finished` is true exactly when there is none; the messages sent are those of the unflagged elements before that point; every element before it ends up flagged, and every flag from it on is unchanged, so an element after it that was already flagged stays flagged |
| Content.Scan | content.js:139-148 | the loop stops at the end or at an element where the pass waits, never after the stall index; the messages are those of the unflagged elements before the stop; every element before the stop ends up flagged, and every flag from the stop on is unchanged |
| Content.Visit | content.js:140-146 | at one element: an unflagged element gets its record sent and its flag set, unless it is a video whose capture never settles, where the pass waits and nothing changes; a flagged element is left as it is; no other element changes |
| Content.StallIndexShape | content.js:139-141 | the stall index is the first unflagged video whose capture never settles: the pass waits there and at no element before |
| Content.StallIndexIs | content.js:139-141 | conversely, an index where the pass waits, with no waiting before it, is the stall index |
| Content.DetectedCount | content.js:139-147 | one pass sends exactly as many messages as there are elements without the flag |
| Content.DetectedMessages | content.js:141-145 | every message sent is `MEDIA_DETECTED` with the record of an element that had no flag |
| Content.MarkedSendsNothing | content.js:140 | when every element is flagged, a pass sends nothing |
| Content.SecondRunSendsNothing | content.js:152-155 | after a pass that finishes, every element is flagged, so the next pass, whatever its clock and captures, waits nowhere, sends nothing and changes no flag |
| Content.StalledRunRepeats | content.js:125-147 | a pass that waits forever at element k leaves it unflagged; when the next pass's capture of it never settles either, that pass waits at k again after sending nothing and changing no flag, so no element after k is ever reported |

## Left out

- Concurrency. background.js:4-16 reads and writes storage in two asynchronous calls, so interleaved messages can lose an entry: one call's write replaces another's (`Background.RaceLosesEntry`). They never store a duplicate key, because every write is built by the same check and prepend from a history that was itself written that way (`Background.RacesNeverDuplicate`). Also, content.js:141-146 sets the flag only after an `await`, so overlapping `MutationObserver` runs can send an element twice. The model treats each listener call and each `detectMedia` pass as one atomic, sequential step, and does not model these races.
- The `chrome.*` APIs:
  - storage is the `stored` field of `MediaStore` and the arguments of `HistoryPage.Load` and `HistoryPage.OnStorageChanged`;
  - `runtime.sendMessage` is the sequence `DetectMedia` returns;
  - `downloads.download` is represented only by the file name it receives;
  - `tabs.create` (popup/popup.js:81-83) is not modelled.
- Thumbnail capture through an image, a canvas and `toDataURL` (content.js:1-47) is not modelled. How each capture ends is a parameter of type `Capture`:
  - `Resolved(image)`: the image is given, not computed (poster or video frame);
  - `Rejected`: a throw while the promise's executor runs, caught at content.js:128-130, so the record has no thumbnail;
  - `Pending`: the promise never settles. This covers a video that never reaches `loadeddata` (content.js:34-38), and a `toDataURL` that throws inside an event callback (content.js:16, 43), where nothing turns the throw into a rejection.
- `getClosestHeading` (content.js:70-84) walks the DOM and is not modelled. Its result is the `heading` field of `MediaElementData`.
- The `MutationObserver` set-up (content.js:151-159) is not modelled. Each run of `detectMedia` is one call of `DetectMedia`.
- Rendering is not modelled: `innerHTML` templates other than the row text, the thumbnail `<img>`, the "no results" switch, and event wiring.
- Dates are not modelled: `new Date(...)`, `toISOString`, `toLocaleString`, and the local-time reading of `dateTo + 'T23:59:59'`.
  - Timestamps are integers, and the two date bounds are given as the instants they stand for.
  - An unparsable date (NaN compares false) is not modelled.
- `localeCompare` is a collation rank given as a parameter. The model makes no claim about the order it induces on titles.
- `new URL(url).pathname` and `decodeURIComponent` are partial functions given as parameters. Their parsing and decoding rules are not part of this model.
- Text.LowerShape: maps only ASCII letters. `toLowerCase` also maps non-ASCII letters, which this model does not. The same holds for `Text.ToUpper` in the capitalisation chain.
- Characters outside the Basic Multilingual Plane. A Dafny `char` is a Unicode scalar value and cannot be half of a surrogate pair, so a string holding an emoji, say, is not modelled code unit by code unit. The lengths, the `slice` of `truncateText` and the per-code-unit statements hold for strings without surrogates. No Unicode normalisation takes place.
- Newtab.EscapeHtmlRoundTrip: the read-back decodes only the five character references that `escapeHtml` produces. A browser's attribute parsing also turns CR and CRLF into LF and NUL into U+FFFD, so a title holding CR or NUL reads back changed; the model's read-back leaves them as they are.
- Popup.AttributeReadBack: the unescaped `data-filename` value ends at the first `"`, and only the five character references are decoded. A title holding another reference (`&#60;`, or `&lt` without `;`) reads back differently in a browser. Markup injected earlier in the row that adds another `.download-btn` is not modelled.
- Content.DetectMedia: requires the visited elements to be distinct objects, as `querySelectorAll` returns them, and one clock reading and one capture outcome per element. The element list is fixed when the pass starts; elements added while the pass waits are not seen by it.
- Popup.TruncateText: the length limit is a natural number. The callers pass 50 and 40.
- Deleting an entry is not modelled: no `DELETE_MEDIA` handler exists in background.js.

## Findings

| source | as written | input that shows it | evidently intended | confidence | as-written member | corrected member |
|---|---|---|---|---|---|---|
| popup/popup.js:17-28 | the popup puts the formatted title, its truncated form and the truncated url into `innerHTML` and into the `title` and `data-filename` attributes without escaping (the full-history page escapes the same fields with `escapeHtml`) | an entry whose title is `<b>x</b>`: the row's markup starts with `<`, so the page parses an element instead of showing the text. A title holding `<!--` or `<textarea>` survives `formatTitle` and swallows the rest of the row's markup, download button included. Then popup/popup.js:32 finds no button, popup/popup.js:33 throws a TypeError, the `forEach` stops, and the remaining entries are never listed | escape the text as newtab/newtab.js:28-37 does, so the row shows exactly the formatted, truncated text | not executed | Popup.RowAsWrittenInjectsMarkup | Popup.RowIsInert |
| popup/popup.js:26-36 | the formatted title goes unescaped into `data-filename="..."`, and the download name is `sanitizeFilename` of what `dataset.filename` reads back | an entry titled `a"b.mp4`: its formatted title is `A"b`, the attribute value ends at the `"`, and the file is named "A" | name the file after the whole formatted title, as the full-history page does by escaping it (newtab/newtab.js:37), which gives "A_b" | not executed | Popup.DownloadNameQuoteExample | Popup.DownloadNameShape |

## Source functions

Each function of the source and where the model defines it. A definition
that only computes is stated through the members in "## Model" listed
beside it.

- background.js:2-21, the `onMessage` listener: `Background.Handle` and `Background.Prepend`, with `Background.HandleAll` for a sequence of messages; state change `Background.MediaStore.HandleMessage`; stated by the `Background` rows.
- newtab/newtab.js:55-62, `escapeHtml`: `Newtab.EscapeHtml`; its read-back `Newtab.Unescape`; stated by `Newtab.EscapeHtmlPerCharacter`, `Newtab.EscapeHtmlAvoidsMarkup`, `Newtab.EscapeHtmlIdentity`, `Newtab.EscapeHtmlRoundTrip` and `Newtab.UnescapeWithoutAmp`.
- newtab/newtab.js:65-73 and popup/popup.js:64-72, `sanitizeFilename` and `getFileExtension`: `FileNames.SanitizeFilename`, `FileNames.SanitizeBase` and `FileNames.GetFileExtension`; stated by the `FileNames` rows.
- newtab/newtab.js:76-113, `filterMedia`: the filter `Newtab.Matches` and `Newtab.FilterHistory`, the sort key `Newtab.SortKey`, the whole selection `Newtab.Select`; state change `Newtab.HistoryPage.FilterMedia`; stated by `Newtab.FilterHistory`, `Newtab.FilterIsSubsequence`, `Newtab.SelectMembers`, `Newtab.SelectExample` and the `Sorting` rows.
- newtab/newtab.js:116-123, `clearFilters`: `Newtab.HistoryPage.ClearFilters`, with `Newtab.ClearedMatchesAll`.
- popup/popup.js:2-40, `displayMedia`: `Popup.RecentItems` and `Popup.PopupItems` (stated by `Popup.PopupItemsShape`); the rows `Popup.RowAsWritten` and `Popup.Row` (stated by `Popup.RowAsWrittenInjectsMarkup`, `Popup.RowIsInert` and `Popup.PopupRows`); the download names `Popup.DownloadNameAsWritten` and `Popup.DownloadName` (stated by the `Popup.DownloadName…` rows).
- popup/popup.js:43-56, `formatTitle`: `Popup.NormalizeWhitespace`, `Text.TitleCase`, `Popup.StripMediaExtension` and `Popup.FormatTitle`; stated by `Popup.NormalizeWhitespaceShape`, `Popup.FormatTitleLength`, `Popup.FormatTitleCanEndInSpace` and the `Text` rows on trimming, collapsing and capitalising.
- popup/popup.js:59-61, `truncateText`: `Popup.TruncateText`.
- content.js:51-66, `extractTitleFromUrl`: `Content.LastSegment`, `Content.StripDotSuffix`, `Content.SeparatorsToSpaces` and `Content.ExtractTitleFromUrl`; stated by `Content.LastSegmentShape`, `Content.StripDotSuffixShape`, `Content.SeparatorsToSpacesShape`, `Content.UrlTitleFailures` and `Content.UrlTitleHasNoSeparators`.
- content.js:87-111, `extractSmartTitle`: `Content.ExtractSmartTitle`, with `Content.FirstTruthy` over `Content.Candidates`.
- content.js:114-134, `extractMediaInfo`: `Content.ExtractMediaInfo`, with `Content.MediaInfoShape`.
- content.js:137-149, `detectMedia`: `Content.DetectMedia`, `Content.Scan` and `Content.Visit`, specified by `Content.StallIndex`, `Content.Detected`, `Content.Pass` and `Content.FlagsAfter`.
