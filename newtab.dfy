/** The full-history page: `escapeHtml`, the filter predicate and sort
    comparator of `filterMedia`, the reset values of `clearFilters`, and the
    page-level `mediaHistory` that the storage callbacks reassign. */
module Newtab {
  import opened Media
  import opened Text
  import opened Sorting

  // ---------------------------------------------------------------------
  // escapeHtml

  /** `s.replace(/c/g, rep)` for a one-character pattern: every occurrence
      of `c`, left to right, is replaced by `rep`. */
  function ReplaceChar(s: string, c: char, rep: string): string {
    if s == [] then []
    else (if s[0] == c then rep else [s[0]]) + ReplaceChar(s[1..], c, rep)
  }

  /** `escapeHtml`: five global replacements, `&` first. */
  function EscapeHtml(s: string): string {
    var amp := ReplaceChar(s, '&', "&amp;");
    var lt := ReplaceChar(amp, '<', "&lt;");
    var gt := ReplaceChar(lt, '>', "&gt;");
    var quot := ReplaceChar(gt, '"', "&quot;");
    ReplaceChar(quot, '\'', "&#039;")
  }

  /** The code units `escapeHtml` rewrites. */
  const HtmlSpecial: set<char> := {'&', '<', '>', '"', '\''}

  /** The code units that can open a tag or close an attribute value. */
  const Markup: set<char> := {'<', '>', '"', '\''}

  /** The entity each code unit stands for in the escaped text. */
  function EscapeChar(c: char): string {
    match c
    case '&' => "&amp;"
    case '<' => "&lt;"
    case '>' => "&gt;"
    case '"' => "&quot;"
    case '\'' => "&#039;"
    case _ => [c]
  }

  /** Reference definition: escape each code unit on its own. */
  function EscapeEach(s: string): string {
    if s == [] then [] else EscapeChar(s[0]) + EscapeEach(s[1..])
  }

  /** What an HTML parser reads back from escaped text, for the five
      entities `escapeHtml` produces. */
  function Unescape(s: string): string
    decreases |s|
  {
    if s == [] then []
    else if "&amp;" <= s then "&" + Unescape(s[5..])
    else if "&lt;" <= s then "<" + Unescape(s[4..])
    else if "&gt;" <= s then ">" + Unescape(s[4..])
    else if "&quot;" <= s then "\"" + Unescape(s[6..])
    else if "&#039;" <= s then "'" + Unescape(s[6..])
    else [s[0]] + Unescape(s[1..])
  }

  lemma {:induction false} ReplaceCharAppend(a: string, b: string, c: char, rep: string)
    ensures ReplaceChar(a + b, c, rep) == ReplaceChar(a, c, rep) + ReplaceChar(b, c, rep)
  {
    if a == [] {
      assert a + b == b;
    } else {
      assert (a + b)[0] == a[0] && (a + b)[1..] == a[1..] + b;
      ReplaceCharAppend(a[1..], b, c, rep);
    }
  }

  lemma {:induction false} ReplaceCharAbsent(s: string, c: char, rep: string)
    requires c !in s
    ensures ReplaceChar(s, c, rep) == s
  {
    if s != [] {
      ReplaceCharAbsent(s[1..], c, rep);
    }
  }

  lemma ReplaceCharSingle(d: char, c: char, rep: string)
    ensures ReplaceChar([d], c, rep) == if d == c then rep else [d]
  {
    assert [d][0] == d && [d][1..] == [];
  }

  lemma EscapeHtmlAppend(a: string, b: string)
    ensures EscapeHtml(a + b) == EscapeHtml(a) + EscapeHtml(b)
  {
    ReplaceCharAppend(a, b, '&', "&amp;");
    var a1, b1 := ReplaceChar(a, '&', "&amp;"), ReplaceChar(b, '&', "&amp;");
    ReplaceCharAppend(a1, b1, '<', "&lt;");
    var a2, b2 := ReplaceChar(a1, '<', "&lt;"), ReplaceChar(b1, '<', "&lt;");
    ReplaceCharAppend(a2, b2, '>', "&gt;");
    var a3, b3 := ReplaceChar(a2, '>', "&gt;"), ReplaceChar(b2, '>', "&gt;");
    ReplaceCharAppend(a3, b3, '"', "&quot;");
    var a4, b4 := ReplaceChar(a3, '"', "&quot;"), ReplaceChar(b3, '"', "&quot;");
    ReplaceCharAppend(a4, b4, '\'', "&#039;");
  }

  /** The four replacements after the first, as one step. */
  function EscapeRest(s: string): string {
    var lt := ReplaceChar(s, '<', "&lt;");
    var gt := ReplaceChar(lt, '>', "&gt;");
    var quot := ReplaceChar(gt, '"', "&quot;");
    ReplaceChar(quot, '\'', "&#039;")
  }

  lemma EscapeRestAbsent(s: string)
    requires Avoids(s, Markup)
    ensures EscapeRest(s) == s
  {
    ReplaceCharAbsent(s, '<', "&lt;");
    ReplaceCharAbsent(s, '>', "&gt;");
    ReplaceCharAbsent(s, '"', "&quot;");
    ReplaceCharAbsent(s, '\'', "&#039;");
  }

  /** On one code unit the five replacements give its entity: the later
      replacements find nothing to replace in an earlier entity. */
  lemma EscapeHtmlChar(d: char)
    ensures EscapeHtml([d]) == EscapeChar(d)
  {
    if d in HtmlSpecial {
      EscapeHtmlSpecial(d);
    } else {
      EscapeHtmlPlain(d);
    }
  }
  lemma EscapeHtmlPlain(d: char)
    requires d !in HtmlSpecial
    ensures EscapeHtml([d]) == [d]
  {
    ReplaceCharAbsent([d], '&', "&amp;");
    EscapeRestAbsent([d]);
  }
  lemma EscapeHtmlSpecial(d: char)
    requires d in HtmlSpecial
    ensures EscapeHtml([d]) == EscapeChar(d)
  {
    var amp := ReplaceChar([d], '&', "&amp;");
    ReplaceCharSingle(d, '&', "&amp;");
    if d == '&' {
      EscapeRestAbsent(amp);
    } else {
      EscapeOther(d);
    }
  }

  lemma EscapeOther(d: char)
    requires d in Markup
    ensures EscapeRest([d]) == EscapeChar(d)
  {
    var lt := ReplaceChar([d], '<', "&lt;");
    ReplaceCharSingle(d, '<', "&lt;");
    if d == '<' {
      EscapeLtRest(lt);
    } else {
      var gt := ReplaceChar(lt, '>', "&gt;");
      ReplaceCharSingle(d, '>', "&gt;");
      if d == '>' {
        EscapeGtRest(gt);
      } else {
        var quot := ReplaceChar(gt, '"', "&quot;");
        ReplaceCharSingle(d, '"', "&quot;");
        if d == '"' {
          ReplaceCharAbsent(quot, '\'', "&#039;");
        } else {
          ReplaceCharSingle(d, '\'', "&#039;");
        }
      }
    }
  }

  lemma EscapeLtRest(lt: string)
    requires lt == "&lt;"
    ensures ReplaceChar(ReplaceChar(ReplaceChar(lt, '>', "&gt;"), '"', "&quot;"), '\'', "&#039;") == lt
  {
    ReplaceCharAbsent(lt, '>', "&gt;");
    ReplaceCharAbsent(lt, '"', "&quot;");
    ReplaceCharAbsent(lt, '\'', "&#039;");
  }

  lemma EscapeGtRest(gt: string)
    requires gt == "&gt;"
    ensures ReplaceChar(ReplaceChar(gt, '"', "&quot;"), '\'', "&#039;") == gt
  {
    ReplaceCharAbsent(gt, '"', "&quot;");
    ReplaceCharAbsent(gt, '\'', "&#039;");
  }

  /** Because `&` is replaced first, the chain of replacements is the same
      as escaping each code unit on its own: no entity is escaped twice. */
  lemma {:induction false} EscapeHtmlPerCharacter(s: string)
    ensures EscapeHtml(s) == EscapeEach(s)
  {
    if s == [] {
    } else {
      assert s == [s[0]] + s[1..];
      EscapeHtmlAppend([s[0]], s[1..]);
      EscapeHtmlChar(s[0]);
      EscapeHtmlPerCharacter(s[1..]);
    }
  }

  lemma {:induction false} EscapeEachAvoidsMarkup(s: string)
    ensures Avoids(EscapeEach(s), Markup)
  {
    if s != [] {
      EscapeEachAvoidsMarkup(s[1..]);
    }
  }

  /** Escaped text contains none of `<`, `>`, `"` and `'`. */
  lemma EscapeHtmlAvoidsMarkup(s: string)
    ensures Avoids(EscapeHtml(s), Markup)
  {
    EscapeHtmlPerCharacter(s);
    EscapeEachAvoidsMarkup(s);
  }

  /** Text with none of the five special code units is left as it is. */
  lemma {:induction false} EscapeHtmlIdentity(s: string)
    requires Avoids(s, HtmlSpecial)
    ensures EscapeHtml(s) == s
  {
    EscapeHtmlPerCharacter(s);
    EscapeEachIdentity(s);
  }

  lemma {:induction false} EscapeEachIdentity(s: string)
    requires Avoids(s, HtmlSpecial)
    ensures EscapeEach(s) == s
  {
    if s != [] {
      EscapeEachIdentity(s[1..]);
      assert s == [s[0]] + s[1..];
    }
  }

  lemma UnescapeStep(c: char, t: string)
    ensures Unescape(EscapeChar(c) + t) == [c] + Unescape(t)
  {
    if c == '&' {
      UnescapeEntity("&amp;", '&', t);
    } else if c == '<' {
      UnescapeEntity("&lt;", '<', t);
    } else if c == '>' {
      UnescapeEntity("&gt;", '>', t);
    } else if c == '"' {
      UnescapeEntity("&quot;", '"', t);
    } else if c == '\'' {
      UnescapeEntity("&#039;", '\'', t);
    } else {
      UnescapePlain(c, t);
    }
  }

  lemma UnescapePlain(c: char, t: string)
    requires c !in HtmlSpecial
    ensures Unescape([c] + t) == [c] + Unescape(t)
  {
    var s := [c] + t;
    assert s[0] == c && s[1..] == t;
  }

  /** Text without `&` holds no character reference and reads back as it
      is. */
  lemma {:induction false} UnescapeWithoutAmp(s: string)
    requires '&' !in s
    ensures Unescape(s) == s
  {
    if s != [] {
      assert s[0] != '&' && '&' !in s[1..];
      UnescapeWithoutAmp(s[1..]);
    }
  }

  /** Each entity is read back as the code unit it stands for. */
  lemma UnescapeEntity(e: string, c: char, t: string)
    requires (e, c) in {("&amp;", '&'), ("&lt;", '<'), ("&gt;", '>'), ("&quot;", '"'), ("&#039;", '\'')}
    ensures Unescape(e + t) == [c] + Unescape(t)
  {
    var s := e + t;
    assert e <= s && s[|e|..] == t;
    assert s[1] == e[1];
  }

  /** Round trip: reading escaped text back as HTML gives exactly the
      original text. */
  lemma {:induction false} EscapeHtmlRoundTrip(s: string)
    ensures Unescape(EscapeHtml(s)) == s
  {
    EscapeHtmlPerCharacter(s);
    UnescapeEscapeEach(s);
  }

  lemma {:induction false} UnescapeEscapeEach(s: string)
    ensures Unescape(EscapeEach(s)) == s
  {
    if s != [] {
      UnescapeStep(s[0], EscapeEach(s[1..]));
      UnescapeEscapeEach(s[1..]);
      assert s == [s[0]] + s[1..];
    }
  }

  // ---------------------------------------------------------------------
  // filterMedia

  /** The values of the search box, type select, the two date inputs and the
      sort select. A date bound is an instant; `None` is an empty input. */
  datatype Criteria = Criteria(
    search: string,
    filterType: string,
    dateFrom: Option<int>,
    dateTo: Option<int>,
    sortBy: string)

  /** The values `clearFilters` writes back into the controls. */
  const Cleared: Criteria := Criteria("", "all", None, None, "newest")

  /** The search term (already lower-cased) is empty or occurs in the
      lower-cased title, url or page url. */
  predicate MatchesSearch(e: Entry, term: string) {
    || term == []
    || Contains(Lower(e.title), term)
    || Contains(Lower(e.url), term)
    || Contains(Lower(e.pageUrl), term)
  }

  /** The predicate passed to `mediaHistory.filter`. */
  predicate Matches(e: Entry, c: Criteria) {
    && MatchesSearch(e, Lower(c.search))
    && (c.filterType == "all" || e.mediaType == c.filterType)
    && (c.dateFrom.None? || e.timestamp >= c.dateFrom.value)
    && (c.dateTo.None? || e.timestamp <= c.dateTo.value)
  }

  /** `mediaHistory.filter(...)`: each entry occurs as often as in the
      history when it matches and not at all otherwise. */
  function FilterHistory(h: seq<Entry>, c: Criteria): (r: seq<Entry>)
    ensures forall e :: multiset(r)[e] == if Matches(e, c) then multiset(h)[e] else 0
  {
    if h == [] then []
    else
      assert h == [h[0]] + h[1..];
      (if Matches(h[0], c) then [h[0]] else []) + FilterHistory(h[1..], c)
  }

  /** `a` is `b` with some elements left out and the rest in order. */
  ghost predicate IsSubsequence<T>(a: seq<T>, b: seq<T>)
    decreases |b|
  {
    if a == [] then true
    else if b == [] then false
    else (a[0] == b[0] && IsSubsequence(a[1..], b[1..])) || IsSubsequence(a, b[1..])
  }

  /** The sort key the comparator compares: `b - a` on timestamps for
      "newest", `a - b` for "oldest", the collation rank that `localeCompare`
      orders by for "title", and 0 for any other value. */
  function SortKey(sortBy: string, collate: string -> int): Entry -> int {
    if sortBy == "newest" then (e: Entry) => -e.timestamp
    else if sortBy == "oldest" then (e: Entry) => e.timestamp
    else if sortBy == "title" then (e: Entry) => collate(e.title)
    else (e: Entry) => 0
  }

  /** What `filterMedia` hands to `displayMedia`. */
  function Select(h: seq<Entry>, c: Criteria, collate: string -> int): seq<Entry> {
    SortByKey(FilterHistory(h, c), SortKey(c.sortBy, collate))
  }

  /** The page's copy of the history, replaced wholesale by the storage
      callbacks. */
  class HistoryPage {
    var mediaHistory: seq<Entry>

    constructor ()
      ensures mediaHistory == []
    {
      mediaHistory := [];
    }

    /** The initial `get` callback: `result.mediaHistory || []`. */
    method Load(stored: Option<seq<Entry>>)
      modifies this
      ensures mediaHistory == stored.GetOr([])
    {
      mediaHistory := if stored.Some? then stored.value else [];
    }

    /** The `onChanged` listener: `change` is `None` when the change does
        not touch `mediaHistory`, else `Some(newValue)`. */
    method OnStorageChanged(change: Option<Option<seq<Entry>>>)
      modifies this
      ensures change.None? ==> mediaHistory == old(mediaHistory)
      ensures change.Some? ==> mediaHistory == change.value.GetOr([])
    {
      if change.Some? {
        Load(change.value);
      }
    }

    /** `filterMedia`: the matching entries, each as often as stored, sorted
        stably by the chosen order. */
    method FilterMedia(c: Criteria, collate: string -> int) returns (shown: seq<Entry>)
      ensures forall e :: multiset(shown)[e] == if Matches(e, c) then multiset(mediaHistory)[e] else 0
      ensures c.sortBy == "newest" ==>
        forall i, j | 0 <= i < j < |shown| :: shown[i].timestamp >= shown[j].timestamp
      ensures c.sortBy == "oldest" ==>
        forall i, j | 0 <= i < j < |shown| :: shown[i].timestamp <= shown[j].timestamp
      ensures c.sortBy == "title" ==>
        forall i, j | 0 <= i < j < |shown| :: collate(shown[i].title) <= collate(shown[j].title)
      ensures c.sortBy !in {"newest", "oldest", "title"} ==> shown == FilterHistory(mediaHistory, c)
      ensures forall k :: WithKey(shown, SortKey(c.sortBy, collate), k)
                       == WithKey(FilterHistory(mediaHistory, c), SortKey(c.sortBy, collate), k)
    {
      var filtered := FilterHistory(mediaHistory, c);
      var key := SortKey(c.sortBy, collate);
      var sorted := SortByKey(filtered, key);
      forall k
        ensures WithKey(sorted, key, k) == WithKey(filtered, key, k)
      {
        SortStable(filtered, key, k);
      }
      if c.sortBy !in {"newest", "oldest", "title"} {
        SortConstantKey(filtered, key, 0);
      }
      shown := sorted;
    }

    /** `clearFilters`: reset the controls and show every stored entry,
        newest first. */
    method ClearFilters(collate: string -> int) returns (c: Criteria, shown: seq<Entry>)
      ensures c == Cleared
      ensures multiset(shown) == multiset(mediaHistory)
      ensures forall i, j | 0 <= i < j < |shown| :: shown[i].timestamp >= shown[j].timestamp
    {
      c := Cleared;
      ClearedMatchesAll(mediaHistory);
      shown := FilterMedia(c, collate);
    }
  }

  // ---------------------------------------------------------------------
  // Lemmas

  /** The filtered list keeps the stored order. */
  lemma {:induction false} FilterIsSubsequence(h: seq<Entry>, c: Criteria)
    ensures IsSubsequence(FilterHistory(h, c), h)
  {
    if h != [] {
      FilterIsSubsequence(h[1..], c);
      var rest := FilterHistory(h[1..], c);
      if Matches(h[0], c) {
        assert FilterHistory(h, c) == [h[0]] + rest;
        assert ([h[0]] + rest)[1..] == rest;
      } else {
        assert FilterHistory(h, c) == rest;
        if rest != [] {
          assert IsSubsequence(rest, h[1..]);
        }
      }
    }
  }

  /** With the cleared controls every entry matches, so the filter changes
      nothing. */
  lemma {:induction false} ClearedMatchesAll(h: seq<Entry>)
    ensures FilterHistory(h, Cleared) == h
  {
    if h != [] {
      assert Lower(Cleared.search) == [];
      assert Matches(h[0], Cleared);
      ClearedMatchesAll(h[1..]);
      assert h == [h[0]] + h[1..];
    }
  }

  /** An entry is shown iff it is stored and matches all four conditions. */
  lemma SelectMembers(h: seq<Entry>, c: Criteria, collate: string -> int, e: Entry)
    ensures e in Select(h, c, collate) <==> e in h && Matches(e, c)
  {
    var f := FilterHistory(h, c);
    assert e in Select(h, c, collate) <==> e in multiset(f);
    assert e in h <==> e in multiset(h);
  }

  lemma ExampleMatches(a: Entry, b: Entry, cc: Entry)
    requires a.mediaType == "video" && b.mediaType == "audio" && cc.mediaType == "video"
    ensures var c := Criteria("", "video", None, None, "newest");
      Matches(a, c) && !Matches(b, c) && Matches(cc, c)
  {
    assert Lower("") == [];
  }

  lemma FilterCons(e: Entry, t: seq<Entry>, c: Criteria)
    ensures FilterHistory([e] + t, c) == (if Matches(e, c) then [e] else []) + FilterHistory(t, c)
  {
    assert ([e] + t)[0] == e && ([e] + t)[1..] == t;
  }

  lemma ExampleFilter(a: Entry, b: Entry, cc: Entry)
    requires a.mediaType == "video" && b.mediaType == "audio" && cc.mediaType == "video"
    ensures FilterHistory([a, b, cc], Criteria("", "video", None, None, "newest")) == [a, cc]
  {
    var c := Criteria("", "video", None, None, "newest");
    ExampleMatches(a, b, cc);
    var t2 := [cc] + [];
    var t1 := [b] + t2;
    assert [a, b, cc] == [a] + t1;
    FilterCons(cc, [], c);
    assert FilterHistory(t2, c) == [cc];
    FilterCons(b, t2, c);
    assert FilterHistory(t1, c) == [cc];
    FilterCons(a, t1, c);
  }

  lemma ExampleSort(a: Entry, cc: Entry, collate: string -> int)
    requires a.timestamp == 2 && cc.timestamp == 3
    ensures SortByKey([a, cc], SortKey("newest", collate)) == [cc, a]
  {
    var key := SortKey("newest", collate);
    assert key(a) == -2 && key(cc) == -3;
    assert [a, cc][0] == a && [a, cc][1..] == [cc];
    assert [cc][0] == cc && [cc][1..] == [];
    calc {
      SortByKey([a, cc], key);
      Insert(a, SortByKey([cc], key), key);
      { assert SortByKey([cc], key) == Insert(cc, [], key) == [cc]; }
      Insert(a, [cc], key);
      [cc] + Insert(a, [], key);
      [cc, a];
    }
  }

  /** The worked example: A = ("Beta", video, 2), B = ("alpha", audio, 1),
      C = ("Gamma", video, 3); type "video", newest first, gives [C, A]. */
  lemma SelectExample(a: Entry, b: Entry, cc: Entry, collate: string -> int)
    requires a.mediaType == "video" && a.timestamp == 2 && a.title == "Beta"
    requires b.mediaType == "audio" && b.timestamp == 1 && b.title == "alpha"
    requires cc.mediaType == "video" && cc.timestamp == 3 && cc.title == "Gamma"
    ensures Select([a, b, cc], Criteria("", "video", None, None, "newest"), collate) == [cc, a]
  {
    ExampleFilter(a, b, cc);
    ExampleSort(a, cc, collate);
  }
}
