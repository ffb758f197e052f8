/** The toolbar popup: `formatTitle`, `truncateText`, the ten most recent
    entries shown by `displayMedia`, and the text each row inserts into the
    page. `sanitizeFilename` and `getFileExtension` are the shared ones in
    module FileNames. */
module Popup {
  import opened Media
  import opened Text
  import opened FileNames
  import Newtab

  /** How many entries the popup lists. */
  const RecentCount: nat := 10

  /** `title.trim().replace(/\s+/g, ' ')`. */
  function NormalizeWhitespace(title: string): string {
    CollapseSpaces(Trim(title))
  }

  /** `title.replace(/\.(mp4|mp3|wav|webm)$/i, '')`: at most one trailing
      media extension is removed. */
  function StripMediaExtension(title: string): (r: string)
    ensures r == title || exists e :: IsMediaExtension(e) && title == r + e
    ensures r == title <==> GetFileExtension(title) == []
  {
    var e := GetFileExtension(title);
    assert title == title[..|title| - |e|] + e;
    title[..|title| - |e|]
  }

  /** `formatTitle`: normalise whitespace, capitalise each word, drop one
      trailing media extension. */
  function FormatTitle(title: string): string {
    StripMediaExtension(TitleCase(NormalizeWhitespace(title)))
  }

  /** `truncateText`: text longer than `maxLength` keeps its first
      `maxLength` code units and gets "..." appended. */
  function TruncateText(text: string, maxLength: nat): (r: string)
    ensures |text| <= maxLength ==> r == text
    ensures |text| > maxLength ==> |r| == maxLength + 3 && text[..maxLength] <= r && r[maxLength..] == "..."
  {
    if |text| > maxLength then text[..maxLength] + "..." else text
  }

  /** `mediaHistory.slice(0, 10)`. */
  function RecentItems(history: seq<Entry>): seq<Entry> {
    history[..Min(RecentCount, |history|)]
  }

  /** The entries listed for the stored value `result.mediaHistory || []`. */
  function PopupItems(stored: Option<seq<Entry>>): seq<Entry> {
    RecentItems(stored.GetOr([]))
  }

  /** The markup one row inserts for the title and the url. */
  datatype RowMarkup = RowMarkup(titleHtml: string, urlHtml: string)

  /** The row as `displayMedia` builds it: formatted, truncated text placed
      into `innerHTML` unescaped. */
  function RowAsWritten(e: Entry): RowMarkup {
    RowMarkup(TruncateText(FormatTitle(e.title), 50), TruncateText(e.url, 40))
  }

  /** The row with the same text escaped, as the full-history page does. */
  function Row(e: Entry): RowMarkup {
    RowMarkup(
      Newtab.EscapeHtml(TruncateText(FormatTitle(e.title), 50)),
      Newtab.EscapeHtml(TruncateText(e.url, 40)))
  }

  /** The rows the popup shows, escaped. */
  function PopupRows(stored: Option<seq<Entry>>): (rows: seq<RowMarkup>)
    ensures |rows| == |PopupItems(stored)|
    ensures forall i | 0 <= i < |rows| ::
      && Avoids(rows[i].titleHtml, Newtab.Markup) && Avoids(rows[i].urlHtml, Newtab.Markup)
      && Newtab.Unescape(rows[i].titleHtml) == TruncateText(FormatTitle(PopupItems(stored)[i].title), 50)
      && Newtab.Unescape(rows[i].urlHtml) == TruncateText(PopupItems(stored)[i].url, 40)
  {
    var items := PopupItems(stored);
    forall i | 0 <= i < |items| {
      RowIsInert(items[i]);
    }
    seq(|items|, i requires 0 <= i < |items| => Row(items[i]))
  }

  /** `t` up to its first `"`. */
  function UpToQuote(t: string): (r: string)
    ensures r <= t && '"' !in r
    ensures |r| < |t| ==> t[|r|] == '"'
  {
    if t == [] || t[0] == '"' then [] else [t[0]] + UpToQuote(t[1..])
  }

  /** What `dataset.filename` holds when the text `t` is placed unescaped
      between the quotes of `data-filename="..."`: the value ends at the
      first `"`, and the character references in it are decoded (the five
      that `escapeHtml` produces). */
  function AttributeReadBack(t: string): string {
    Newtab.Unescape(UpToQuote(t))
  }

  /** The name handed to the download as written: `sanitizeFilename` of what
      the unescaped `data-filename` attribute reads back. */
  function DownloadNameAsWritten(e: Entry): string {
    SanitizeFilename(AttributeReadBack(FormatTitle(e.title)))
  }

  /** The name handed to the download when `data-filename` holds the escaped
      formatted title, as on the full-history page. */
  function DownloadName(e: Entry): string {
    SanitizeFilename(Newtab.Unescape(Newtab.EscapeHtml(FormatTitle(e.title))))
  }

  // ---------------------------------------------------------------------
  // Lemmas

  /** Truncation is idempotent for a fixed length. */
  lemma TruncateTextIdempotent(text: string, maxLength: nat)
    ensures TruncateText(TruncateText(text, maxLength), maxLength) == TruncateText(text, maxLength)
  {
    if |text| > maxLength {
      var r := text[..maxLength] + "...";
      assert r[..maxLength] == text[..maxLength];
    }
  }

  /** The popup lists exactly the first min(10, n) stored entries, in stored
      order; a missing history lists nothing. */
  lemma PopupItemsShape(stored: Option<seq<Entry>>)
    ensures var items := PopupItems(stored);
      && |items| == Min(RecentCount, |stored.GetOr([])|)
      && items <= stored.GetOr([])
      && (stored.None? ==> items == [])
  {
  }

  /** The capitalised, normalised title is a string of single-space separated
      words, each capitalised; so `formatTitle` never makes a title longer. */
  lemma FormatTitleLength(title: string)
    ensures |FormatTitle(title)| <= |title|
  {
    var n := NormalizeWhitespace(title);
    NormalizedShape(title);
    TitleCaseWords(n);
  }

  /** After the whitespace step the title has no whitespace at either end
      and no two whitespace code units in a row. */
  lemma NormalizeWhitespaceShape(title: string)
    ensures var n := NormalizeWhitespace(title);
      && (n == [] || (!IsSpace(n[0]) && !IsSpace(n[|n| - 1])))
      && NoSpaceRun(n)
      && forall i :: 0 <= i < |n| && IsSpace(n[i]) ==> n[i] == ' '
  {
    NormalizedShape(title);
  }

  lemma CapitalizeExample()
    ensures CapitalizeWord("clip") == "Clip"
    ensures CapitalizeWord(".mp4") == ".mp4"
  {
    assert "clip"[1..] == "lip" && Lower("lip") == "lip";
    assert ".mp4"[1..] == "mp4" && Lower("mp4") == "mp4";
  }

  lemma TitleCaseExample()
    ensures TitleCase("clip .mp4") == "Clip .mp4"
  {
    var a, b := "clip", ".mp4";
    assert "clip .mp4" == a + [' '] + b;
    TitleCaseTwoWords(a, b);
    CapitalizeExample();
    assert "Clip" + [' '] + ".mp4" == "Clip .mp4";
  }

  /** Removing the extension comes last, so the result can end in a space:
      `formatTitle("clip .mp4")` is "Clip ". */
  lemma FormatTitleCanEndInSpace()
    ensures FormatTitle("clip .mp4") == "Clip "
  {
    NormalizeExample();
    TitleCaseExample();
    StripExample();
  }

  lemma NormalizeExample()
    ensures NormalizeWhitespace("clip .mp4") == "clip .mp4"
  {
    var a, b := "clip", ".mp4";
    assert "clip .mp4" == a + [' '] + b;
    assert !IsSpace(a[0]) && !IsSpace(a[1]) && !IsSpace(a[2]) && !IsSpace(a[3]);
    assert !IsSpace(b[0]) && !IsSpace(b[1]) && !IsSpace(b[2]) && !IsSpace(b[3]);
    NormalizeTwoWords(a, b);
  }

  lemma StripExample()
    ensures StripMediaExtension("Clip .mp4") == "Clip "
  {
    var t := "Clip ";
    assert "Clip .mp4" == t + ".mp4";
    Mp4Extension(t);
    assert (t + ".mp4")[..|t|] == t;
  }

  /** Two words without whitespace, joined by one space, are already
      normalised. */
  lemma NormalizeTwoWords(a: string, b: string)
    requires a != [] && b != []
    requires forall i | 0 <= i < |a| :: !IsSpace(a[i])
    requires forall i | 0 <= i < |b| :: !IsSpace(b[i])
    ensures NormalizeWhitespace(a + [' '] + b) == a + [' '] + b
  {
    var s := a + [' '] + b;
    assert s[0] == a[0] && s[|s| - 1] == b[|b| - 1];
    assert TrimStart(s) == s;
    assert TrimEnd(s) == s;
    assert s == a + ([' '] + b);
    CollapseWordThenRest(a, [' '] + b);
    assert TrimStart([' '] + b) == TrimStart(b) == b;
    CollapseWithoutSpace(b);
  }

  lemma {:induction false} CollapseWithoutSpace(s: string)
    requires forall i :: 0 <= i < |s| ==> !IsSpace(s[i])
    ensures CollapseSpaces(s) == s
  {
    if s != [] {
      CollapseWithoutSpace(s[1..]);
    }
  }

  lemma NormalizeWithoutSpace(s: string)
    requires s != [] && forall i :: 0 <= i < |s| ==> !IsSpace(s[i])
    ensures NormalizeWhitespace(s) == s
  {
    assert TrimStart(s) == s;
    assert TrimEnd(s) == s;
    CollapseWithoutSpace(s);
  }

  /** A string that does not start with '.' keeps its first code unit when
      the extension is removed. */
  lemma StripKeepsFirst(t: string)
    requires t != [] && t[0] != '.'
    ensures StripMediaExtension(t) != [] && StripMediaExtension(t)[0] == t[0]
  {
    var x := GetFileExtension(t);
    if x != [] {
      assert x[0] == '.';
      assert t[|t| - |x|] == '.';
    }
  }

  /** Normalising and capitalising keep a leading '<' of a title without
      whitespace. */
  lemma CapitalizedKeepsLeadingAngle(title: string)
    requires title != [] && title[0] == '<'
    requires forall i :: 0 <= i < |title| ==> !IsSpace(title[i])
    ensures |TitleCase(NormalizeWhitespace(title))| == |title|
    ensures TitleCase(NormalizeWhitespace(title))[0] == '<'
  {
    NormalizeWithoutSpace(title);
    TitleCaseFirst(title);
  }

  /** As written, the markup in a title reaches `innerHTML` as markup: a
      title without whitespace that starts with `<` (such as "<b>x</b>")
      puts a `<` at the start of the row's title markup. */
  lemma RowAsWrittenInjectsMarkup(e: Entry)
    requires e.title != [] && e.title[0] == '<'
    requires forall i :: 0 <= i < |e.title| ==> !IsSpace(e.title[i])
    ensures RowAsWritten(e).titleHtml != [] && RowAsWritten(e).titleHtml[0] == '<'
    ensures !Avoids(RowAsWritten(e).titleHtml, Newtab.Markup)
  {
    CapitalizedKeepsLeadingAngle(e.title);
    var t := TitleCase(NormalizeWhitespace(e.title));
    StripKeepsFirst(t);
    var r := TruncateText(StripMediaExtension(t), 50);
    assert r == RowAsWritten(e).titleHtml;
    assert r[0] in Newtab.Markup;
  }

  /** Escaping the row text keeps markup out of it, and the page still
      reads back exactly the formatted, truncated text. */
  lemma RowIsInert(e: Entry)
    ensures Avoids(Row(e).titleHtml, Newtab.Markup) && Avoids(Row(e).urlHtml, Newtab.Markup)
    ensures Newtab.Unescape(Row(e).titleHtml) == RowAsWritten(e).titleHtml
    ensures Newtab.Unescape(Row(e).urlHtml) == RowAsWritten(e).urlHtml
  {
    Newtab.EscapeHtmlAvoidsMarkup(TruncateText(FormatTitle(e.title), 50));
    Newtab.EscapeHtmlAvoidsMarkup(TruncateText(e.url, 40));
    Newtab.EscapeHtmlRoundTrip(TruncateText(FormatTitle(e.title), 50));
    Newtab.EscapeHtmlRoundTrip(TruncateText(e.url, 40));
  }

  /** The download name is made of safe code units for the length of the
      formatted title, followed by whatever media extension the formatted
      title still ends in (only a doubled one survives `formatTitle`). */
  lemma DownloadNameShape(e: Entry)
    ensures var f := FormatTitle(e.title);
      var d := DownloadName(e);
      && |f| <= |d|
      && (forall i | 0 <= i < |f| :: IsSafeChar(d[i]))
      && d[|f|..] == GetFileExtension(f)
      && d == SanitizeFilename(f)
  {
    Newtab.EscapeHtmlRoundTrip(FormatTitle(e.title));
  }

  /** Text without `"` and `&` reads back from the unescaped attribute as it
      is. */
  lemma ReadBackOfPlainText(t: string)
    requires '"' !in t && '&' !in t
    ensures AttributeReadBack(t) == t
  {
    assert UpToQuote(t) == t;
    Newtab.UnescapeWithoutAmp(t);
  }

  /** As written, the download name is the intended one as long as the
      formatted title holds no `"` and no `&`. */
  lemma DownloadNameAsWrittenPlain(e: Entry)
    requires '"' !in FormatTitle(e.title) && '&' !in FormatTitle(e.title)
    ensures DownloadNameAsWritten(e) == DownloadName(e)
  {
    ReadBackOfPlainText(FormatTitle(e.title));
    Newtab.EscapeHtmlRoundTrip(FormatTitle(e.title));
  }

  /** `formatTitle("a\"b.mp4")` is `A"b`. */
  lemma QuoteTitleFormat()
    ensures FormatTitle("a\"b.mp4") == "A\"b"
  {
    QuoteTitleNormalize();
    QuoteTitleCase();
    QuoteTitleStrip();
  }

  lemma QuoteTitleNormalize()
    ensures NormalizeWhitespace("a\"b.mp4") == "a\"b.mp4"
  {
    var w := "a\"b.mp4";
    assert !IsSpace(w[0]) && !IsSpace(w[1]) && !IsSpace(w[2]) && !IsSpace(w[3]);
    assert !IsSpace(w[4]) && !IsSpace(w[5]) && !IsSpace(w[6]);
    NormalizeWithoutSpace(w);
  }

  lemma QuoteTitleCase()
    ensures TitleCase("a\"b.mp4") == "A\"b.mp4"
  {
    var rest := "\"b.mp4";
    var w := ['a'] + rest;
    assert w == "a\"b.mp4";
    assert ' ' !in w;
    TitleCaseOneWord(w);
    assert !IsAsciiUpper(rest[0]) && !IsAsciiUpper(rest[1]) && !IsAsciiUpper(rest[2]);
    assert !IsAsciiUpper(rest[3]) && !IsAsciiUpper(rest[4]) && !IsAsciiUpper(rest[5]);
    LowerWithoutUpper(rest);
    assert w[1..] == rest;
    assert ['A'] + rest == "A\"b.mp4";
  }

  lemma QuoteTitleStrip()
    ensures StripMediaExtension("A\"b.mp4") == "A\"b"
  {
    var t := "A\"b";
    assert "A\"b.mp4" == t + ".mp4";
    Mp4Extension(t);
    assert (t + ".mp4")[..|t|] == t;
  }

  /** As written, a `"` in the formatted title ends the attribute value:
      the title `a"b.mp4` is downloaded as "A" instead of "A_b". */
  lemma DownloadNameQuoteExample(e: Entry)
    requires e.title == "a\"b.mp4"
    ensures DownloadNameAsWritten(e) == "A"
    ensures DownloadName(e) == "A_b"
  {
    QuoteTitleFormat();
    QuoteReadBack();
    Newtab.EscapeHtmlRoundTrip("A\"b");
    QuoteSanitized();
  }

  lemma QuoteReadBack()
    ensures AttributeReadBack("A\"b") == "A"
    ensures SanitizeFilename("A") == "A"
  {
    var f := "A\"b";
    assert UpToQuote(f[1..]) == [];
    assert UpToQuote(f) == "A";
    Newtab.UnescapeWithoutAmp("A");
    assert GetFileExtension("A") == [];
    assert SanitizeBase("A") == "A";
  }

  lemma QuoteSanitized()
    ensures SanitizeFilename("A\"b") == "A_b"
  {
    var f := "A\"b";
    assert GetFileExtension(f) == [];
    var b := SanitizeBase(f);
    assert b[0] == 'A' && b[1] == '_' && b[2] == 'b';
  }
}
