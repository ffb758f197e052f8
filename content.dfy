/** The content script: the title derived from a media url
    (`extractTitleFromUrl`), the first-non-empty title chain
    (`extractSmartTitle`), the record sent for one element
    (`extractMediaInfo`) and the pass over the page's media elements that
    marks each one as logged (`detectMedia`). The DOM, the url parser, the
    URI decoder, the clock and the thumbnail capture are inputs. */
module Content {
  import opened Media
  import opened Text

  // ---------------------------------------------------------------------
  // extractTitleFromUrl

  /** The number of trailing code units that are neither '.' nor '/'. */
  function TailLength(s: string): (n: nat)
    ensures n <= |s|
    ensures forall j | |s| - n <= j < |s| :: s[j] != '.' && s[j] != '/'
    ensures n < |s| ==> s[|s| - n - 1] == '.' || s[|s| - n - 1] == '/'
  {
    if s == [] || s[|s| - 1] == '.' || s[|s| - 1] == '/' then 0
    else
      var m := TailLength(s[..|s| - 1]);
      assert forall j | |s| - 1 - m <= j < |s| - 1 :: s[..|s| - 1][j] == s[j];
      m + 1
  }

  /** `/\.[^/.]+$/` matches at `k`: a '.' followed, up to the end, by one or
      more code units that are neither '.' nor '/'. */
  predicate DotSuffixAt(s: string, k: int) {
    0 <= k < |s| - 1 && s[k] == '.' && forall j | k < j < |s| :: s[j] != '.' && s[j] != '/'
  }

  /** `s.replace(/\.[^/.]+$/, '')`. */
  function StripDotSuffix(s: string): string {
    var n := TailLength(s);
    if 0 < n < |s| && s[|s| - n - 1] == '.' then s[..|s| - n - 1] else s
  }

  /** The result of `StripDotSuffix` is a prefix of `s`; it is shorter
      exactly when the pattern matches, and then what was removed is one
      match. */
  lemma StripDotSuffixShape(s: string)
    ensures var r := StripDotSuffix(s);
      && |r| <= |s| && r == s[..|r|]
      && (|r| < |s| ==> DotSuffixAt(s, |r|))
      && (|r| == |s| <==> forall k | 0 <= k < |s| :: !DotSuffixAt(s, k))
  {
    var n := TailLength(s);
    if 0 < n < |s| && s[|s| - n - 1] == '.' {
      assert DotSuffixAt(s, |s| - n - 1);
    } else {
      NoDotSuffix(s);
    }
  }

  /** When the trailing run of code units other than '.' and '/' is empty,
      is all of `s`, or follows a '/', the pattern matches nowhere. */
  lemma NoDotSuffix(s: string)
    requires var n := TailLength(s); !(0 < n < |s| && s[|s| - n - 1] == '.')
    ensures forall k | 0 <= k < |s| :: !DotSuffixAt(s, k)
  {
    var n := TailLength(s);
    forall k | 0 <= k < |s| - 1 && s[k] == '.'
      ensures exists j | k < j < |s| :: s[j] == '.' || s[j] == '/'
    {
      if n == 0 {
        assert s[|s| - 1] == '.' || s[|s| - 1] == '/';
      } else {
        assert k < |s| - n - 1;
        assert s[|s| - n - 1] == '/';
      }
    }
  }

  /** `path.split('/').pop()`. */
  function LastSegment(path: string): string {
    var words := Split(path, '/');
    words[|words| - 1]
  }

  /** The separators `[-_+]` replaced by spaces. */
  const Separators: set<char> := {'-', '_', '+'}

  /** `s.replace(/[-_+]/g, ' ')`. */
  function SeparatorsToSpaces(s: string): string {
    seq(|s|, i requires 0 <= i < |s| => if s[i] in Separators then ' ' else s[i])
  }

  /** No separator is left; the code units that change are exactly the
      separators, and each becomes a space. */
  lemma SeparatorsToSpacesShape(s: string)
    ensures var r := SeparatorsToSpaces(s);
      && |r| == |s|
      && Avoids(r, Separators)
      && (forall i | 0 <= i < |s| :: r[i] == s[i] <==> s[i] !in Separators)
      && (forall i | 0 <= i < |s| :: r[i] != s[i] ==> r[i] == ' ')
  {
  }

  /** Replacing the separators a second time changes nothing. */
  lemma SeparatorsToSpacesIdempotent(s: string)
    ensures SeparatorsToSpaces(SeparatorsToSpaces(s)) == SeparatorsToSpaces(s)
  {
    SeparatorsToSpacesShape(s);
  }

  /** `extractTitleFromUrl`. `pathname` stands for `new URL(url).pathname`
      and `decode` for `decodeURIComponent`; `None` is a thrown exception,
      which makes the result "". */
  function ExtractTitleFromUrl(url: string, pathname: string -> Option<string>,
                               decode: string -> Option<string>): string
  {
    match pathname(url)
    case None => ""
    case Some(path) =>
      match decode(StripDotSuffix(LastSegment(path)))
      case None => ""
      case Some(name) => TitleCase(SeparatorsToSpaces(name))
  }

  // ---------------------------------------------------------------------
  // extractSmartTitle

  /** What the title chain reads from one `<video>` or `<audio>` element.
      `ariaLabel` is `getAttribute('aria-label')` (None when absent) and
      `heading` is what `getClosestHeading` found (None for `null`). */
  datatype MediaElementData = MediaElementData(
    tagName: string,
    src: string,
    currentSrc: string,
    title: string,
    ariaLabel: Option<string>,
    heading: Option<string>)

  /** What the title chain and the record read from the document. A meta
      tag that is missing is None. */
  datatype PageData = PageData(
    ogTitle: Option<string>,
    metaTitle: Option<string>,
    title: string,
    href: string)

  /** The document and the two library functions the url title relies on. */
  datatype Environment = Environment(
    page: PageData,
    pathname: string -> Option<string>,
    decode: string -> Option<string>)

  /** JavaScript truthiness of a string that may be `null`/`undefined`. */
  predicate Truthy(o: Option<string>) {
    o.Some? && o.value != []
  }

  const NewTabTitle: string := "newtab"
  const Fallback: string := "Untitled Media"

  /** `element.src || element.currentSrc`. */
  function SourceUrl(el: MediaElementData): string {
    if el.src != [] then el.src else el.currentSrc
  }

  /** `extractSmartTitle`: every return is guarded by a truthiness test or
      is the fallback, so the title is never empty. */
  function ExtractSmartTitle(el: MediaElementData, env: Environment, url: string): (r: string)
    ensures r != []
  {
    var elementTitle := if el.title != [] then Some(el.title) else el.ariaLabel;
    if Truthy(elementTitle) then elementTitle.value
    else if Truthy(el.heading) then el.heading.value
    else
      var metaTitle := if Truthy(env.page.ogTitle) then env.page.ogTitle else env.page.metaTitle;
      if Truthy(metaTitle) then metaTitle.value
      else if env.page.title != [] && env.page.title != NewTabTitle then env.page.title
      else
        var urlTitle := ExtractTitleFromUrl(url, env.pathname, env.decode);
        if urlTitle != [] then urlTitle else Fallback
  }

  /** The title sources in priority order; a page title "newtab" is not a
      candidate. */
  function Candidates(el: MediaElementData, env: Environment, url: string): seq<Option<string>> {
    [Some(el.title)] + ([el.ariaLabel] + ([el.heading] + ([env.page.ogTitle] + ([env.page.metaTitle] +
      ([if env.page.title == NewTabTitle then None else Some(env.page.title)] +
       [Some(ExtractTitleFromUrl(url, env.pathname, env.decode))])))))
  }

  /** The first truthy candidate, or `fallback` when there is none. */
  function FirstTruthy(cs: seq<Option<string>>, fallback: string): string {
    if cs == [] then fallback
    else if Truthy(cs[0]) then cs[0].value
    else FirstTruthy(cs[1..], fallback)
  }

  // ---------------------------------------------------------------------
  // extractMediaInfo

  /** The record `extractMediaInfo` builds. `now` is the clock reading and
      `thumbnail` the outcome of the capture (None when it fails); the
      capture only runs for a video. */
  function ExtractMediaInfo(el: MediaElementData, env: Environment, now: int,
                            thumbnail: Option<string>): Entry
  {
    var url := SourceUrl(el);
    Entry(url, ExtractSmartTitle(el, env, url), Lower(el.tagName), now, env.page.href,
          if IsVideo(el) then thumbnail else None)
  }

  /** `element.tagName.toLowerCase() === 'video'`. */
  predicate IsVideo(el: MediaElementData) {
    Lower(el.tagName) == "video"
  }

  // ---------------------------------------------------------------------
  // detectMedia

  /** One media element of the page: what it offers to the title chain and
      its `dataset.logged` attribute ("" when absent). */
  class MediaNode {
    const data: MediaElementData
    var logged: string

    constructor (data: MediaElementData, logged: string)
      ensures this.data == data && this.logged == logged
    {
      this.data := data;
      this.logged := logged;
    }
  }

  function Items(nodes: seq<MediaNode>): (r: seq<MediaElementData>)
    ensures |r| == |nodes|
  {
    seq(|nodes|, i requires 0 <= i < |nodes| => nodes[i].data)
  }

  function Flags(nodes: seq<MediaNode>): (r: seq<string>)
    reads set n | n in nodes
    ensures |r| == |nodes|
  {
    seq(|nodes|, i requires 0 <= i < |nodes| reads nodes => nodes[i].logged)
  }

  /** The flag after an element has been visited. */
  function Marked(flag: string): string {
    if flag == [] then "true" else flag
  }

  /** How the thumbnail capture of a video ends. The promise resolves with
      an encoded image, or it is rejected and the error is caught at
      content.js:128-130 (a throw while the executor runs), or it never
      settles: a video that never reaches `loadeddata` (content.js:37), or
      a `toDataURL` that throws inside an event callback (content.js:16,
      43), where no one turns the throw into a rejection. */
  datatype Capture = Resolved(image: string) | Rejected | Pending

  /** The thumbnail a settled capture gives the record. */
  function Thumbnail(c: Capture): Option<string> {
    if c.Resolved? then Some(c.image) else None
  }

  /** The pass waits forever at this element: it has no flag, it is a
      video, and its capture never settles. */
  predicate Stalls(item: MediaElementData, flag: string, c: Capture) {
    flag == [] && IsVideo(item) && c.Pending?
  }

  /** The first element the pass waits at forever, or the number of
      elements when there is none. */
  function StallIndex(items: seq<MediaElementData>, flags: seq<string>, thumbs: seq<Capture>): (k: nat)
    requires |flags| == |items| && |thumbs| == |items|
    ensures k <= |items|
    decreases |items|
  {
    if items == [] || Stalls(items[0], flags[0], thumbs[0]) then 0
    else 1 + StallIndex(items[1..], flags[1..], thumbs[1..])
  }

  /** The stall index is the first element the run waits at: there the run
      waits, and it waits at no element before. */
  lemma {:induction false} StallIndexShape(items: seq<MediaElementData>, flags: seq<string>, thumbs: seq<Capture>)
    requires |flags| == |items| && |thumbs| == |items|
    ensures var k := StallIndex(items, flags, thumbs);
      && (k < |items| ==> Stalls(items[k], flags[k], thumbs[k]))
      && (forall j | 0 <= j < k :: !Stalls(items[j], flags[j], thumbs[j]))
    decreases |items|
  {
    if items != [] && !Stalls(items[0], flags[0], thumbs[0]) {
      StallIndexShape(items[1..], flags[1..], thumbs[1..]);
      var k := StallIndex(items, flags, thumbs);
      forall j | 0 <= j < k
        ensures !Stalls(items[j], flags[j], thumbs[j])
      {
        if j > 0 {
          assert items[1..][j - 1] == items[j] && flags[1..][j - 1] == flags[j] && thumbs[1..][j - 1] == thumbs[j];
        }
      }
    }
  }

  /** The messages sent for the elements `items`: one `MEDIA_DETECTED`
      message per element whose flag is empty, in document order. */
  function Detected(items: seq<MediaElementData>, flags: seq<string>, env: Environment,
                    clock: seq<int>, thumbs: seq<Capture>): seq<Message>
    requires |flags| == |items| && |clock| == |items| && |thumbs| == |items|
    decreases |items|
  {
    if items == [] then []
    else
      var n := |items| - 1;
      Detected(items[..n], flags[..n], env, clock[..n], thumbs[..n])
      + if flags[n] == [] then [Message(MediaDetected, ExtractMediaInfo(items[n], env, clock[n], Thumbnail(thumbs[n])))]
        else []
  }

  /** The messages one run sends: those for the elements before the one it
      waits at forever, or for all of them. */
  function Pass(items: seq<MediaElementData>, flags: seq<string>, env: Environment,
                clock: seq<int>, thumbs: seq<Capture>): seq<Message>
    requires |flags| == |items| && |clock| == |items| && |thumbs| == |items|
  {
    var k := StallIndex(items, flags, thumbs);
    Detected(items[..k], flags[..k], env, clock[..k], thumbs[..k])
  }

  /** The flags after one run: set on every element before the one it
      waits at forever, unchanged from there on. */
  function FlagsAfter(items: seq<MediaElementData>, flags: seq<string>, thumbs: seq<Capture>): seq<string>
    requires |flags| == |items| && |thumbs| == |items|
  {
    var k := StallIndex(items, flags, thumbs);
    seq(|flags|, i requires 0 <= i < |flags| => if i < k then Marked(flags[i]) else flags[i])
  }

  /** The number of elements without the flag. */
  function Unlogged(flags: seq<string>): nat {
    if flags == [] then 0
    else Unlogged(flags[..|flags| - 1]) + if flags[|flags| - 1] == [] then 1 else 0
  }

  /** One run of `detectMedia` over the elements `querySelectorAll` returned
      (distinct nodes). `clock[i]` is what the clock gives and `thumbs[i]`
      how the capture ends when element `i` is visited. At a capture that
      never settles the run stops for good: `finished` is false, and the
      messages and flags are those of the elements before it. */
  method DetectMedia(nodes: seq<MediaNode>, env: Environment, clock: seq<int>,
                     thumbs: seq<Capture>) returns (sent: seq<Message>, finished: bool)
    requires |clock| == |nodes| && |thumbs| == |nodes|
    requires forall i, j | 0 <= i < j < |nodes| :: nodes[i] != nodes[j]
    modifies set n | n in nodes
    ensures finished <==> StallIndex(Items(nodes), old(Flags(nodes)), thumbs) == |nodes|
    ensures sent == Pass(Items(nodes), old(Flags(nodes)), env, clock, thumbs)
    ensures forall i | 0 <= i < |nodes| ::
      nodes[i].logged == FlagsAfter(Items(nodes), old(Flags(nodes)), thumbs)[i]
  {
    ghost var flags := Flags(nodes);
    var stop;
    sent, stop := Scan(nodes, env, clock, thumbs);
    RunStopsAt(Items(nodes), flags, thumbs, stop);
    finished := stop == |nodes|;
  }

  /** The loop of `detectMedia`: it visits the elements in order and stops
      at `stop`, the first element whose capture never settles, or at the
      end. */
  method Scan(nodes: seq<MediaNode>, env: Environment, clock: seq<int>,
              thumbs: seq<Capture>) returns (sent: seq<Message>, stop: nat)
    requires |clock| == |nodes| && |thumbs| == |nodes|
    requires forall i, j | 0 <= i < j < |nodes| :: nodes[i] != nodes[j]
    modifies set n | n in nodes
    ensures stop <= StallIndex(Items(nodes), old(Flags(nodes)), thumbs)
    ensures stop == |nodes| || Stalls(nodes[stop].data, old(nodes[stop].logged), thumbs[stop])
    ensures sent == Detected(Items(nodes)[..stop], old(Flags(nodes))[..stop], env, clock[..stop], thumbs[..stop])
    ensures forall j | 0 <= j < stop :: nodes[j].logged == Marked(old(nodes[j].logged))
    ensures forall j | stop <= j < |nodes| :: nodes[j].logged == old(nodes[j].logged)
  {
    ghost var items := Items(nodes);
    ghost var flags := Flags(nodes);
    ghost var k := StallIndex(items, flags, thumbs);
    sent := [];
    stop := 0;
    while stop < |nodes|
      invariant stop <= k
      invariant sent == Detected(items[..stop], flags[..stop], env, clock[..stop], thumbs[..stop])
      invariant forall j | 0 <= j < stop :: nodes[j].logged == Marked(flags[j])
      invariant forall j | stop <= j < |nodes| :: nodes[j].logged == flags[j]
    {
      var msgs, stalled := Visit(nodes, stop, env, clock[stop], thumbs[stop]);
      if stalled {
        return;
      }
      StallLater(items, flags, thumbs, stop);
      DetectedStep(items, flags, env, clock, thumbs, stop);
      sent := sent + msgs;
      stop := stop + 1;
    }
  }

  /** One step of the loop, at element `i`: its record is built and sent
      and its flag set when it has none, unless the run waits at it
      forever. No other element changes. */
  method Visit(nodes: seq<MediaNode>, i: nat, env: Environment, now: int, capture: Capture)
    returns (msgs: seq<Message>, stalled: bool)
    requires i < |nodes|
    requires forall a, b | 0 <= a < b < |nodes| :: nodes[a] != nodes[b]
    modifies nodes[i]
    ensures stalled == Stalls(nodes[i].data, old(nodes[i].logged), capture)
    ensures nodes[i].logged == if stalled then old(nodes[i].logged) else Marked(old(nodes[i].logged))
    ensures forall j | 0 <= j < |nodes| && j != i :: nodes[j].logged == old(nodes[j].logged)
    ensures !stalled ==> msgs == if old(nodes[i].logged) == [] then [Message(MediaDetected, ExtractMediaInfo(nodes[i].data, env, now, Thumbnail(capture)))] else []
  {
    var node := nodes[i];
    msgs := [];
    stalled := Stalls(node.data, node.logged, capture);
    if !stalled && node.logged == [] {
      var info := ExtractMediaInfo(node.data, env, now, Thumbnail(capture));
      msgs := [Message(MediaDetected, info)];
      node.logged := "true";
    }
  }

  /** Where the run stops, and the flags it leaves. */
  lemma RunStopsAt(items: seq<MediaElementData>, flags: seq<string>, thumbs: seq<Capture>, i: nat)
    requires |flags| == |items| && |thumbs| == |items|
    requires i <= StallIndex(items, flags, thumbs)
    requires i == |items| || Stalls(items[i], flags[i], thumbs[i])
    ensures i == StallIndex(items, flags, thumbs)
    ensures forall j | 0 <= j < |flags| ::
      FlagsAfter(items, flags, thumbs)[j] == if j < i then Marked(flags[j]) else flags[j]
  {
    StallIndexShape(items, flags, thumbs);
  }

  /** An element the run does not wait at lies before the stall index. */
  lemma StallLater(items: seq<MediaElementData>, flags: seq<string>, thumbs: seq<Capture>, i: nat)
    requires |flags| == |items| && |thumbs| == |items|
    requires i <= StallIndex(items, flags, thumbs) && i < |items|
    requires !Stalls(items[i], flags[i], thumbs[i])
    ensures i < StallIndex(items, flags, thumbs)
  {
    StallIndexShape(items, flags, thumbs);
  }

  // ---------------------------------------------------------------------
  // Lemmas

  /** Visiting one more element appends at most its own message. */
  lemma DetectedStep(items: seq<MediaElementData>, flags: seq<string>, env: Environment,
                     clock: seq<int>, thumbs: seq<Capture>, i: nat)
    requires |flags| == |items| && |clock| == |items| && |thumbs| == |items|
    requires i < |items|
    ensures Detected(items[..i + 1], flags[..i + 1], env, clock[..i + 1], thumbs[..i + 1])
      == Detected(items[..i], flags[..i], env, clock[..i], thumbs[..i])
         + if flags[i] == [] then [Message(MediaDetected, ExtractMediaInfo(items[i], env, clock[i], Thumbnail(thumbs[i])))]
           else []
  {
    assert items[..i + 1][..i] == items[..i] && flags[..i + 1][..i] == flags[..i];
    assert clock[..i + 1][..i] == clock[..i] && thumbs[..i + 1][..i] == thumbs[..i];
  }

  /** `split` gives a single word exactly when the separator does not
      occur, and that word is the whole string. */
  lemma {:induction false} SplitSingle(s: string, sep: char)
    ensures |Split(s, sep)| == 1 <==> sep !in s
    ensures |Split(s, sep)| == 1 ==> Split(s, sep)[0] == s
  {
    if s != [] {
      SplitSingle(s[1..], sep);
      assert s == [s[0]] + s[1..];
    }
  }

  /** The last of the words `w` is a suffix of `s`, preceded by `sep`
      unless it is all of `s`. */
  predicate LastWordShape(s: string, w: seq<string>, sep: char) {
    && |w| >= 1
    && |w[|w| - 1]| <= |s| && w[|w| - 1] == s[|s| - |w[|w| - 1]|..]
    && (|w| > 1 ==> |w[|w| - 1]| < |s| && s[|s| - |w[|w| - 1]| - 1] == sep)
  }

  /** The last word of `split` is a suffix of the string, preceded by the
      separator unless it is the whole string. */
  lemma {:induction false} SplitLastSegment(s: string, sep: char)
    ensures LastWordShape(s, Split(s, sep), sep)
  {
    if s == [] {
      assert Split(s, sep) == [[]];
    } else {
      var t := s[1..];
      SplitLastSegment(t, sep);
      SplitLastCons(s, sep);
      LastWordStep(s, sep, Split(s, sep), Split(t, sep));
    }
  }

  /** One step of the induction above, on the words of `s` and of its tail. */
  lemma LastWordStep(s: string, sep: char, w: seq<string>, rest: seq<string>)
    requires s != [] && LastWordShape(s[1..], rest, sep)
    requires |rest| == 1 ==> rest[0] == s[1..]
    requires (|rest| > 1 || s[0] == sep) ==> |w| > 1 && w[|w| - 1] == rest[|rest| - 1]
    requires (|rest| == 1 && s[0] != sep) ==> |w| == 1 && w[0] == [s[0]] + rest[0]
    ensures LastWordShape(s, w, sep)
  {
    var t := s[1..];
    if |rest| > 1 {
      SuffixOfTail(s, rest[|rest| - 1], sep);
    } else if s[0] == sep {
      assert w[|w| - 1] == t;
      assert s[|s| - |t|..] == t;
    } else {
      assert w[0] == s;
      assert s[|s| - |s|..] == s;
    }
  }

  /** How the last word of `split` follows from the split of the tail. */
  lemma SplitLastCons(s: string, sep: char)
    requires s != []
    ensures |Split(s[1..], sep)| == 1 ==> Split(s[1..], sep)[0] == s[1..]
    ensures var w := Split(s, sep);
      var rest := Split(s[1..], sep);
      && ((|rest| > 1 || s[0] == sep) ==> |w| > 1 && w[|w| - 1] == rest[|rest| - 1])
      && ((|rest| == 1 && s[0] != sep) ==> |w| == 1 && w[0] == [s[0]] + rest[0])
  {
    SplitSingle(s[1..], sep);
  }

  /** A suffix of the tail that follows a separator is a suffix of the
      whole string that follows the same separator. */
  lemma SuffixOfTail(s: string, l: string, sep: char)
    requires s != [] && |l| < |s| - 1
    requires l == s[1..][|s| - 1 - |l|..] && s[1..][|s| - 1 - |l| - 1] == sep
    ensures |l| < |s| && l == s[|s| - |l|..] && s[|s| - |l| - 1] == sep
  {
  }

  /** The url title is built from the last '/'-separated segment of the
      path: the decoder sees a suffix of the path that holds no '/' and
      either is the whole path or follows a '/', with at most one
      `.extension` removed from its end. */
  lemma LastSegmentShape(path: string)
    ensures var seg := LastSegment(path);
      && '/' !in seg
      && |seg| <= |path| && seg == path[|path| - |seg|..]
      && (|seg| == |path| || path[|path| - |seg| - 1] == '/')
      && StripDotSuffix(seg) == seg[..|StripDotSuffix(seg)|]
      && (|StripDotSuffix(seg)| < |seg| ==> DotSuffixAt(seg, |StripDotSuffix(seg)|))
  {
    var seg := LastSegment(path);
    assert '/' !in seg && |seg| <= |path| && seg == path[|path| - |seg|..]
      && (|seg| == |path| || path[|path| - |seg| - 1] == '/') by {
      SplitWordsAvoidSep(path, '/');
      SplitSingle(path, '/');
      SplitLastSegment(path, '/');
    }
    StripDotSuffixShape(seg);
  }

  /** A url that does not parse, or a segment that does not decode, gives
      the empty title. */
  lemma UrlTitleFailures(url: string, pathname: string -> Option<string>,
                         decode: string -> Option<string>)
    ensures pathname(url).None? ==> ExtractTitleFromUrl(url, pathname, decode) == []
    ensures pathname(url).Some? && decode(StripDotSuffix(LastSegment(pathname(url).value))).None? ==>
      ExtractTitleFromUrl(url, pathname, decode) == []
  {
  }

  lemma SeparatorsCaseClosed()
    ensures CaseClosed(Separators)
  {
    forall c
      ensures ToUpper(c) in Separators ==> c in Separators
    {
      if IsAsciiLower(c) {
        assert IsAsciiUpper(ToUpper(c));
      }
    }
    forall c
      ensures ToLower(c) in Separators ==> c in Separators
    {
      if IsAsciiUpper(c) {
        assert IsAsciiLower(ToLower(c));
      }
    }
  }

  /** The url title holds no '-', '_' or '+': they become spaces after
      decoding, and capitalisation cannot bring them back. */
  lemma UrlTitleHasNoSeparators(url: string, pathname: string -> Option<string>,
                                decode: string -> Option<string>)
    ensures Avoids(ExtractTitleFromUrl(url, pathname, decode), Separators)
  {
    if pathname(url).Some? {
      var d := decode(StripDotSuffix(LastSegment(pathname(url).value)));
      if d.Some? {
        var s := SeparatorsToSpaces(d.value);
        SeparatorsCaseClosed();
        TitleCaseAvoids(s, Separators);
      }
    }
  }

  /** The chain returns the first truthy source in the order element title
      or aria-label, heading, og:title, meta title, page title (unless
      "newtab"), url title, and "Untitled Media" when none is. */
  lemma SmartTitleIsFirstTruthy(el: MediaElementData, env: Environment, url: string)
    ensures ExtractSmartTitle(el, env, url) == FirstTruthy(Candidates(el, env, url), Fallback)
  {
    var page := env.page;
    var u := ExtractTitleFromUrl(url, env.pathname, env.decode);
    var pt := if page.title == NewTabTitle then None else Some(page.title);
    var c6 := [Some(u)];
    var c5 := [pt] + c6;
    var c4 := [page.metaTitle] + c5;
    var c3 := [page.ogTitle] + c4;
    var c2 := [el.heading] + c3;
    var c1 := [el.ariaLabel] + c2;
    FirstTruthyCons(Some(u), [], Fallback);
    assert c6 == [Some(u)] + [];
    FirstTruthyCons(pt, c6, Fallback);
    FirstTruthyCons(page.metaTitle, c5, Fallback);
    FirstTruthyCons(page.ogTitle, c4, Fallback);
    FirstTruthyCons(el.heading, c3, Fallback);
    FirstTruthyCons(el.ariaLabel, c2, Fallback);
    FirstTruthyCons(Some(el.title), c1, Fallback);
  }

  lemma FirstTruthyCons(c: Option<string>, rest: seq<Option<string>>, fallback: string)
    ensures FirstTruthy([c] + rest, fallback) == if Truthy(c) then c.value else FirstTruthy(rest, fallback)
  {
    assert ([c] + rest)[1..] == rest;
  }

  /** The value chosen is that of the first truthy candidate. */
  lemma {:induction false} FirstTruthyIsFirst(cs: seq<Option<string>>, fallback: string, k: nat)
    requires k < |cs| && Truthy(cs[k])
    requires forall j | 0 <= j < k :: !Truthy(cs[j])
    ensures FirstTruthy(cs, fallback) == cs[k].value
  {
    if k > 0 {
      assert !Truthy(cs[0]);
      FirstTruthyIsFirst(cs[1..], fallback, k - 1);
    }
  }

  /** With no truthy candidate the fallback is chosen. */
  lemma {:induction false} FirstTruthyNone(cs: seq<Option<string>>, fallback: string)
    requires forall j | 0 <= j < |cs| :: !Truthy(cs[j])
    ensures FirstTruthy(cs, fallback) == fallback
  {
    if cs != [] {
      assert !Truthy(cs[0]);
      FirstTruthyNone(cs[1..], fallback);
    }
  }

  /** A page whose title is "newtab" gets the title it would get with no
      page title at all. */
  lemma NewTabPageTitleSkipped(el: MediaElementData, env: Environment, url: string)
    requires env.page.title == NewTabTitle
    ensures ExtractSmartTitle(el, env, url)
      == ExtractSmartTitle(el, env.(page := env.page.(title := "")), url)
  {
  }

  /** So the chain answers "newtab" only when the element, the heading or a
      meta tag says so: the url title starts with a capital, and the
      fallback is not "newtab". */
  lemma NewTabNeverFromPageTitle(el: MediaElementData, env: Environment, url: string)
    requires el.title != NewTabTitle && el.ariaLabel != Some(NewTabTitle)
    requires el.heading != Some(NewTabTitle)
    requires env.page.ogTitle != Some(NewTabTitle) && env.page.metaTitle != Some(NewTabTitle)
    ensures ExtractSmartTitle(el, env, url) != NewTabTitle
  {
    var r := ExtractSmartTitle(el, env, url);
    var u := ExtractTitleFromUrl(url, env.pathname, env.decode);
    if u != [] && r == u {
      var d := env.decode(StripDotSuffix(LastSegment(env.pathname(url).value))).value;
      var s := SeparatorsToSpaces(d);
      TitleCaseFirst(s);
      assert u[0] == ToUpper(s[0]);
      assert !IsAsciiLower(u[0]);
    }
  }

  /** The record: the type is the tag name lower-cased (ASCII), the url is
      `src` or else `currentSrc`, the title is never empty, and only a video
      can carry a thumbnail. */
  lemma MediaInfoShape(el: MediaElementData, env: Environment, now: int, thumbnail: Option<string>)
    ensures var info := ExtractMediaInfo(el, env, now, thumbnail);
      && |info.mediaType| == |el.tagName|
      && (forall i | 0 <= i < |el.tagName| :: ToLower(info.mediaType[i]) == ToLower(el.tagName[i]))
      && (forall i | 0 <= i < |info.mediaType| :: !IsAsciiUpper(info.mediaType[i]))
      && info.url == (if el.src != [] then el.src else el.currentSrc)
      && info.title != []
      && (info.thumbnail.Some? ==> Lower(el.tagName) == "video")
      && (Lower(el.tagName) == "video" ==> info.thumbnail == thumbnail)
      && info.timestamp == now && info.pageUrl == env.page.href
  {
  }

  /** One message per element without the flag. */
  lemma {:induction false} DetectedCount(items: seq<MediaElementData>, flags: seq<string>, env: Environment,
                                         clock: seq<int>, thumbs: seq<Capture>)
    requires |flags| == |items| && |clock| == |items| && |thumbs| == |items|
    ensures |Detected(items, flags, env, clock, thumbs)| == Unlogged(flags)
    decreases |items|
  {
    if items != [] {
      var n := |items| - 1;
      DetectedCount(items[..n], flags[..n], env, clock[..n], thumbs[..n]);
    }
  }

  /** Every message sent is a `MEDIA_DETECTED` message for an element that
      had no flag, with that element's record. */
  lemma {:induction false} DetectedMessages(items: seq<MediaElementData>, flags: seq<string>, env: Environment,
                                            clock: seq<int>, thumbs: seq<Capture>)
    requires |flags| == |items| && |clock| == |items| && |thumbs| == |items|
    ensures forall m | m in Detected(items, flags, env, clock, thumbs) ::
      m.msgType == MediaDetected &&
      exists i | 0 <= i < |items| :: flags[i] == [] && m.payload == ExtractMediaInfo(items[i], env, clock[i], Thumbnail(thumbs[i]))
    decreases |items|
  {
    if items != [] {
      var n := |items| - 1;
      DetectedMessages(items[..n], flags[..n], env, clock[..n], thumbs[..n]);
    }
  }

  lemma {:induction false} MarkedSendsNothing(items: seq<MediaElementData>, flags: seq<string>, env: Environment,
                                              clock: seq<int>, thumbs: seq<Capture>)
    requires |flags| == |items| && |clock| == |items| && |thumbs| == |items|
    requires forall i | 0 <= i < |flags| :: flags[i] != []
    ensures Detected(items, flags, env, clock, thumbs) == []
    decreases |items|
  {
    if items != [] {
      var n := |items| - 1;
      MarkedSendsNothing(items[..n], flags[..n], env, clock[..n], thumbs[..n]);
    }
  }

  /** The stall index is the first element the run waits at. */
  lemma StallIndexIs(items: seq<MediaElementData>, flags: seq<string>, thumbs: seq<Capture>, k: nat)
    requires |flags| == |items| && |thumbs| == |items| && k <= |items|
    requires k < |items| ==> Stalls(items[k], flags[k], thumbs[k])
    requires forall j | 0 <= j < k :: !Stalls(items[j], flags[j], thumbs[j])
    ensures StallIndex(items, flags, thumbs) == k
  {
    StallIndexShape(items, flags, thumbs);
  }

  /** A run that finishes flags every element, so the next run, whatever
      its clock and captures, waits nowhere, sends nothing and changes no
      flag. */
  lemma SecondRunSendsNothing(items: seq<MediaElementData>, flags: seq<string>, env: Environment,
                              clock: seq<int>, thumbs: seq<Capture>, clock2: seq<int>, thumbs2: seq<Capture>)
    requires |flags| == |items| && |clock| == |items| && |thumbs| == |items|
    requires |clock2| == |items| && |thumbs2| == |items|
    requires StallIndex(items, flags, thumbs) == |items|
    ensures var after := FlagsAfter(items, flags, thumbs);
      && (forall i | 0 <= i < |after| :: after[i] != [])
      && StallIndex(items, after, thumbs2) == |items|
      && Pass(items, after, env, clock2, thumbs2) == []
      && FlagsAfter(items, after, thumbs2) == after
  {
    var after := FlagsAfter(items, flags, thumbs);
    StallIndexIs(items, after, thumbs2, |items|);
    assert items[..|items|] == items && after[..|items|] == after;
    assert clock2[..|items|] == clock2 && thumbs2[..|items|] == thumbs2;
    MarkedSendsNothing(items, after, env, clock2, thumbs2);
  }

  /** A run that waits forever at element `k` leaves that element without
      the flag. When the next run's capture of it never settles either,
      that run waits at the same element after sending nothing, and no flag
      changes: no element after it is ever reported. */
  lemma StalledRunRepeats(items: seq<MediaElementData>, flags: seq<string>, env: Environment,
                          thumbs: seq<Capture>, clock2: seq<int>, thumbs2: seq<Capture>, k: nat)
    requires |flags| == |items| && |thumbs| == |items|
    requires |clock2| == |items| && |thumbs2| == |items|
    requires k == StallIndex(items, flags, thumbs) && k < |items| && thumbs2[k].Pending?
    ensures var after := FlagsAfter(items, flags, thumbs);
      && after[k] == []
      && StallIndex(items, after, thumbs2) == k
      && Pass(items, after, env, clock2, thumbs2) == []
      && FlagsAfter(items, after, thumbs2) == after
  {
    var after := FlagsAfter(items, flags, thumbs);
    StallIndexShape(items, flags, thumbs);
    assert Stalls(items[k], after[k], thumbs2[k]);
    StallIndexIs(items, after, thumbs2, k);
    MarkedSendsNothing(items[..k], after[..k], env, clock2[..k], thumbs2[..k]);
  }
}
