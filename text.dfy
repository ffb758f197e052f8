/** String helpers shared by the content script and the two views: the
    ECMAScript whitespace class, ASCII case mapping, `split`/`join` on one
    separator character, the "capitalise each word" chain and `includes`.
    A `char` stands for one UTF-16 code unit of a JavaScript string that is
    not half of a surrogate pair (a Dafny `char` is a Unicode scalar value,
    so characters outside the Basic Multilingual Plane are not modelled). */
module Text {

  /** The code units matched by `\s` and removed by `String.prototype.trim`:
      ECMAScript WhiteSpace (including the Zs category) and LineTerminator. */
  predicate IsSpace(c: char) {
    || c == '\t' || c == '\n' || c == '\U{000B}' || c == '\U{000C}' || c == '\r'
    || c == ' ' || c == '\U{00A0}' || c == '\U{1680}'
    || ('\U{2000}' <= c <= '\U{200A}')
    || c == '\U{2028}' || c == '\U{2029}' || c == '\U{202F}' || c == '\U{205F}'
    || c == '\U{3000}' || c == '\U{FEFF}'
  }

  predicate IsAsciiUpper(c: char) { 'A' <= c <= 'Z' }
  predicate IsAsciiLower(c: char) { 'a' <= c <= 'z' }

  /** `toUpperCase` on one code unit, restricted to ASCII letters. */
  function ToUpper(c: char): char {
    if IsAsciiLower(c) then (c as int - 32) as char else c
  }

  /** `toLowerCase` on one code unit, restricted to ASCII letters. */
  function ToLower(c: char): char {
    if IsAsciiUpper(c) then (c as int + 32) as char else c
  }

  /** `String.prototype.toLowerCase` (ASCII letters only). */
  function Lower(s: string): (r: string)
    ensures |r| == |s|
  {
    seq(|s|, i requires 0 <= i < |s| => ToLower(s[i]))
  }

  /** Text without ASCII upper-case letters is its own lower-case form. */
  lemma LowerWithoutUpper(s: string)
    requires forall i | 0 <= i < |s| :: !IsAsciiUpper(s[i])
    ensures Lower(s) == s
  {
  }

  /** Lower-casing leaves no ASCII upper-case letter, changes exactly the
      code units that were one, and keeps every code unit's letter (the two
      agree once upper-cased). */
  lemma LowerShape(s: string)
    ensures var r := Lower(s);
      && |r| == |s|
      && (forall i | 0 <= i < |r| :: !IsAsciiUpper(r[i]))
      && (forall i | 0 <= i < |s| :: r[i] == s[i] <==> !IsAsciiUpper(s[i]))
      && (forall i | 0 <= i < |s| :: ToUpper(r[i]) == ToUpper(s[i]))
  {
  }

  /** `trimStart`: drop the leading run of whitespace. */
  function TrimStart(s: string): (r: string)
    ensures |r| <= |s| && r == s[|s| - |r|..]
    ensures forall i :: 0 <= i < |s| - |r| ==> IsSpace(s[i])
    ensures r == [] || !IsSpace(r[0])
  {
    if s != [] && IsSpace(s[0]) then TrimStart(s[1..]) else s
  }

  /** `trimEnd`: drop the trailing run of whitespace. */
  function TrimEnd(s: string): (r: string)
    ensures |r| <= |s| && r == s[..|r|]
    ensures forall i :: |r| <= i < |s| ==> IsSpace(s[i])
    ensures r == [] || !IsSpace(r[|r| - 1])
  {
    if s != [] && IsSpace(s[|s| - 1]) then TrimEnd(s[..|s| - 1]) else s
  }

  /** `String.prototype.trim`. */
  function Trim(s: string): string {
    TrimEnd(TrimStart(s))
  }

  /** No two adjacent whitespace code units. */
  predicate NoSpaceRun(s: string) {
    forall i :: 0 <= i < |s| - 1 ==> !(IsSpace(s[i]) && IsSpace(s[i + 1]))
  }

  /** `s.replace(/\s+/g, ' ')`: every maximal run of whitespace becomes one
      space. */
  function CollapseSpaces(s: string): (r: string)
    ensures |r| <= |s|
    ensures r == [] <==> s == []
    ensures r != [] ==> (IsSpace(r[0]) <==> IsSpace(s[0]))
    ensures r != [] ==> (IsSpace(r[|r| - 1]) <==> IsSpace(s[|s| - 1]))
    ensures forall i :: 0 <= i < |r| && IsSpace(r[i]) ==> r[i] == ' '
    ensures NoSpaceRun(r)
    decreases |s|
  {
    if s == [] then []
    else if IsSpace(s[0]) then
      var rest := TrimStart(s);
      assert rest == [] ==> IsSpace(s[|s| - 1]);
      " " + CollapseSpaces(rest)
    else
      [s[0]] + CollapseSpaces(s[1..])
  }

  /** `s.split(sep)` for a one-character separator: never empty, and the
      first word is a prefix of `s`. */
  function Split(s: string, sep: char): (words: seq<string>)
    ensures |words| >= 1
    ensures words[0] <= s
  {
    if s == [] then [[]]
    else
      var rest := Split(s[1..], sep);
      if s[0] == sep then [[]] + rest
      else [[s[0]] + rest[0]] + rest[1..]
  }

  /** `words.join(sep)`. */
  function Join(words: seq<string>, sep: char): string {
    if |words| == 0 then []
    else if |words| == 1 then words[0]
    else words[0] + [sep] + Join(words[1..], sep)
  }

  /** `word.charAt(0).toUpperCase() + word.slice(1).toLowerCase()`. */
  function CapitalizeWord(w: string): string {
    if w == [] then [] else [ToUpper(w[0])] + Lower(w[1..])
  }

  function CapitalizeAll(words: seq<string>): (r: seq<string>)
    ensures |r| == |words|
  {
    seq(|words|, i requires 0 <= i < |words| => CapitalizeWord(words[i]))
  }

  /** `s.split(' ').map(CapitalizeWord).join(' ')`. */
  function TitleCase(s: string): string {
    Join(CapitalizeAll(Split(s, ' ')), ' ')
  }

  predicate OccursAt(s: string, t: string, i: int) {
    0 <= i && i + |t| <= |s| && s[i..i + |t|] == t
  }

  /** `s.includes(t)`. */
  predicate Contains(s: string, t: string) {
    exists i | 0 <= i <= |s| - |t| :: OccursAt(s, t, i)
  }

  /** No code unit of `s` lies in `bad`. */
  predicate Avoids(s: string, bad: set<char>) {
    forall i :: 0 <= i < |s| ==> s[i] !in bad
  }

  /** A set of code units that case mapping cannot map into from outside. */
  predicate CaseClosed(bad: set<char>) {
    && (forall c :: ToUpper(c) in bad ==> c in bad)
    && (forall c :: ToLower(c) in bad ==> c in bad)
  }

  // ---------------------------------------------------------------------
  // Lemmas

  /** Lower-casing a lower-cased string changes nothing. */
  lemma LowerIdempotent(s: string)
    ensures Lower(Lower(s)) == Lower(s)
  {
  }

  /** After `trim`, the string neither starts nor ends with whitespace, and
      only whitespace was removed from either end. */
  lemma TrimShape(s: string)
    ensures var r := Trim(s);
      && |r| <= |s|
      && (r == [] || (!IsSpace(r[0]) && !IsSpace(r[|r| - 1])))
      && Contains(s, r)
  {
    TrimContained(s);
    var t := TrimStart(s);
    var r := TrimEnd(t);
    if r != [] {
      assert r[0] == t[0];
    }
  }

  /** What `trim` keeps is a contiguous part of the string. */
  lemma TrimContained(s: string)
    ensures Contains(s, Trim(s))
  {
    var t := TrimStart(s);
    var r := TrimEnd(t);
    var k := |s| - |t|;
    assert s[k..k + |r|] == t[..|r|];
    assert OccursAt(s, r, k);
  }

  /** `trim` followed by `replace(/\s+/g, ' ')` gives a string with no
      whitespace at either end, no two whitespace code units in a row, no
      whitespace other than ' ', and no more code units than it started
      with. */
  lemma NormalizedShape(s: string)
    ensures var r := CollapseSpaces(Trim(s));
      && |r| <= |s|
      && (r == [] || (!IsSpace(r[0]) && !IsSpace(r[|r| - 1])))
      && NoSpaceRun(r)
      && forall i :: 0 <= i < |r| && IsSpace(r[i]) ==> r[i] == ' '
  {
    TrimShape(s);
  }

  /** The text with every whitespace code unit left out. */
  function RemoveSpaces(s: string): string {
    if s == [] then []
    else (if IsSpace(s[0]) then [] else [s[0]]) + RemoveSpaces(s[1..])
  }

  /** Dropping leading whitespace leaves the other code units as they were. */
  lemma {:induction false} RemoveSpacesTrimStart(s: string)
    ensures RemoveSpaces(TrimStart(s)) == RemoveSpaces(s)
  {
    if s != [] && IsSpace(s[0]) {
      RemoveSpacesTrimStart(s[1..]);
    }
  }

  /** Collapsing whitespace keeps every other code unit, in order. */
  lemma {:induction false} CollapseKeepsText(s: string)
    ensures RemoveSpaces(CollapseSpaces(s)) == RemoveSpaces(s)
    decreases |s|
  {
    if s != [] {
      var r := CollapseSpaces(s);
      if IsSpace(s[0]) {
        var u := TrimStart(s);
        assert r == " " + CollapseSpaces(u);
        CollapseKeepsText(u);
        RemoveSpacesTrimStart(s);
        assert r[1..] == CollapseSpaces(u);
      } else {
        CollapseKeepsText(s[1..]);
        assert r[1..] == CollapseSpaces(s[1..]);
      }
    }
  }

  /** Dropping leading whitespace commutes with appending a code unit,
      unless the whole string was whitespace. */
  lemma {:induction false} TrimStartSnoc(s: string, c: char)
    ensures TrimStart(s + [c]) == if TrimStart(s) != [] then TrimStart(s) + [c] else TrimStart([c])
  {
    if s == [] {
      assert s + [c] == [c];
    } else if IsSpace(s[0]) {
      assert (s + [c])[1..] == s[1..] + [c];
      TrimStartSnoc(s[1..], c);
    }
  }

  /** One step of `replace(/\s+/g, ' ')` read from the other end: `r` is
      the collapsed text so far and `afterSpace` says whether the input so
      far ends in whitespace. */
  function CollapseStep(r: string, afterSpace: bool, c: char): string {
    if !IsSpace(c) then r + [c] else if afterSpace then r else r + " "
  }

  lemma CollapseStepPrepend(x: string, r: string, afterSpace: bool, c: char)
    ensures x + CollapseStep(r, afterSpace, c) == CollapseStep(x + r, afterSpace, c)
  {
    if !IsSpace(c) {
      assert x + (r + [c]) == (x + r) + [c];
    } else if !afterSpace {
      assert x + (r + " ") == (x + r) + " ";
    }
  }

  lemma CollapseSingle(c: char)
    ensures CollapseSpaces([c]) == if IsSpace(c) then " " else [c]
  {
    if IsSpace(c) {
      assert TrimStart([c]) == TrimStart([]);
    } else {
      assert [c][1..] == [];
    }
  }

  /** Appending to a string that starts outside whitespace. */
  lemma CollapseSnocWordFirst(s: string, c: char)
    requires s != [] && !IsSpace(s[0])
    ensures CollapseSpaces(s + [c]) == [s[0]] + CollapseSpaces(s[1..] + [c])
    ensures CollapseSpaces(s) == [s[0]] + CollapseSpaces(s[1..])
  {
    assert (s + [c])[0] == s[0] && (s + [c])[1..] == s[1..] + [c];
  }

  /** Appending to a string that starts with whitespace. */
  lemma CollapseSnocSpaceFirst(s: string, c: char)
    requires s != [] && IsSpace(s[0])
    ensures CollapseSpaces(s + [c]) == " " + CollapseSpaces(TrimStart(s + [c]))
    ensures CollapseSpaces(s) == " " + CollapseSpaces(TrimStart(s))
  {
    assert (s + [c])[0] == s[0];
  }

  /** Appending `c` to `s` collapses as `CollapseStep` says. */
  predicate SnocLaw(s: string, c: char) {
    CollapseSpaces(s + [c]) == CollapseStep(CollapseSpaces(s), s != [] && IsSpace(s[|s| - 1]), c)
  }

  /** `replace(/\s+/g, ' ')` read from the other end: appending a code unit
      that is not whitespace appends it, appending whitespace right after
      whitespace changes nothing, and appending whitespace after anything
      else appends one ' '. With `CollapseSpaces("") == ""` this fixes the
      result for every input. */
  lemma {:induction false} CollapseSpacesSnoc(s: string, c: char)
    ensures SnocLaw(s, c)
    decreases |s|
  {
    if s == [] {
      assert s + [c] == [c];
      CollapseSingle(c);
    } else if !IsSpace(s[0]) {
      CollapseSpacesSnoc(s[1..], c);
      SnocWordCase(s, c);
    } else if TrimStart(s) != [] {
      CollapseSpacesSnoc(TrimStart(s), c);
      SnocSpaceCase(s, c);
    } else {
      SnocAllSpaceCase(s, c);
    }
  }

  lemma SnocWordCase(s: string, c: char)
    requires s != [] && !IsSpace(s[0]) && SnocLaw(s[1..], c)
    ensures SnocLaw(s, c)
  {
    var t := s[1..];
    var b := IsSpace(s[|s| - 1]);
    CollapseSnocWordFirst(s, c);
    assert (t != [] && IsSpace(t[|t| - 1])) == b;
    CollapseStepPrepend([s[0]], CollapseSpaces(t), b, c);
  }

  lemma SnocSpaceCase(s: string, c: char)
    requires s != [] && IsSpace(s[0]) && TrimStart(s) != [] && SnocLaw(TrimStart(s), c)
    ensures SnocLaw(s, c)
  {
    var u := TrimStart(s);
    var b := IsSpace(s[|s| - 1]);
    TrimStartSnoc(s, c);
    CollapseSnocSpaceFirst(s, c);
    LastOfSuffix(s, u);
    calc {
      CollapseSpaces(s + [c]);
      " " + CollapseSpaces(TrimStart(s + [c]));
      { assert TrimStart(s + [c]) == u + [c]; }
      " " + CollapseSpaces(u + [c]);
      " " + CollapseStep(CollapseSpaces(u), b, c);
      { CollapseStepPrepend(" ", CollapseSpaces(u), b, c); }
      CollapseStep(" " + CollapseSpaces(u), b, c);
      CollapseStep(CollapseSpaces(s), b, c);
    }
  }

  lemma SnocAllSpaceCase(s: string, c: char)
    requires s != [] && IsSpace(s[0]) && TrimStart(s) == []
    ensures SnocLaw(s, c)
  {
    assert IsSpace(s[|s| - 1]);
    assert CollapseSpaces(s) == " " by {
      CollapseSnocSpaceFirst(s, c);
    }
    assert CollapseSpaces(s + [c]) == " " + CollapseSpaces(TrimStart([c])) by {
      TrimStartSnoc(s, c);
      CollapseSnocSpaceFirst(s, c);
    }
    if IsSpace(c) {
      assert TrimStart([c]) == [];
    } else {
      assert TrimStart([c]) == [c];
      CollapseSingle(c);
    }
  }

  lemma LastOfSuffix(s: string, u: string)
    requires u != [] && |u| <= |s| && u == s[|s| - |u|..]
    ensures u[|u| - 1] == s[|s| - 1]
  {
  }


  /** A string that starts with a non-whitespace character keeps it. */
  lemma CollapseWordHead(s: string)
    requires s != [] && !IsSpace(s[0])
    ensures CollapseSpaces(s) == [s[0]] + CollapseSpaces(s[1..])
  {
  }

  /** Putting the head back on. */
  lemma ConsAppend<T>(a: seq<T>, c: seq<T>)
    requires a != []
    ensures [a[0]] + (a[1..] + c) == a + c
  {
    assert [a[0]] + a[1..] == a;
  }

  /** A leading stretch without whitespace is kept as it is. */
  lemma {:induction false} CollapseWordThenRest(a: string, t: string)
    requires forall i | 0 <= i < |a| :: !IsSpace(a[i])
    ensures CollapseSpaces(a + t) == a + CollapseSpaces(t)
  {
    if a == [] {
      assert a + t == t;
    } else {
      var s := a + t;
      assert s[0] == a[0] && s[1..] == a[1..] + t;
      CollapseWordHead(s);
      CollapseWordThenRest(a[1..], t);
      ConsAppend(a, CollapseSpaces(t));
    }
  }

  /** Splitting and joining again on the same separator gives back the
      string. */
  lemma {:induction false} JoinSplit(s: string, sep: char)
    ensures Join(Split(s, sep), sep) == s
  {
    if s != [] {
      var rest := Split(s[1..], sep);
      JoinSplit(s[1..], sep);
      if s[0] == sep {
        assert Split(s, sep) == [[]] + rest;
      } else {
        var words := Split(s, sep);
        assert words == [[s[0]] + rest[0]] + rest[1..];
        if |rest| > 1 {
          assert words[1..] == rest[1..];
        }
      }
    }
  }

  /** No word of `split` contains the separator. */
  lemma {:induction false} SplitWordsAvoidSep(s: string, sep: char)
    ensures forall i | 0 <= i < |Split(s, sep)| :: sep !in Split(s, sep)[i]
  {
    if s != [] {
      SplitWordsAvoidSep(s[1..], sep);
      var rest := Split(s[1..], sep);
      var words := Split(s, sep);
      if s[0] == sep {
        assert words == [[]] + rest;
        assert forall i | 1 <= i < |words| :: words[i] == rest[i - 1];
      } else {
        assert words == [[s[0]] + rest[0]] + rest[1..];
        assert forall i | 1 <= i < |words| :: words[i] == rest[i];
      }
    }
  }

  /** A word without a space is capitalised as one word. */
  lemma TitleCaseOneWord(w: string)
    requires ' ' !in w
    ensures TitleCase(w) == CapitalizeWord(w)
  {
    SplitOfWord(w, ' ');
    assert CapitalizeAll([w]) == [CapitalizeWord(w)];
  }

  lemma {:induction false} SplitOfWord(w: string, sep: char)
    requires sep !in w
    ensures Split(w, sep) == [w]
  {
    if w != [] {
      SplitOfWord(w[1..], sep);
      assert w == [w[0]] + w[1..];
    }
  }

  lemma {:induction false} SplitOfWordAndRest(w: string, t: string, sep: char)
    requires sep !in w
    ensures Split(w + [sep] + t, sep) == [w] + Split(t, sep)
  {
    var s := w + [sep] + t;
    if w == [] {
      assert s[0] == sep && s[1..] == t;
    } else {
      assert s[1..] == w[1..] + [sep] + t;
      SplitOfWordAndRest(w[1..], t, sep);
      assert w == [w[0]] + w[1..];
    }
  }

  /** Joining words that do not contain the separator and splitting again
      gives back the same words. */
  lemma {:induction false} SplitJoin(words: seq<string>, sep: char)
    requires |words| >= 1
    requires forall w :: w in words ==> sep !in w
    ensures Split(Join(words, sep), sep) == words
  {
    if |words| == 1 {
      SplitOfWord(words[0], sep);
    } else {
      assert words[0] in words;
      assert forall w :: w in words[1..] ==> w in words;
      SplitJoin(words[1..], sep);
      SplitOfWordAndRest(words[0], Join(words[1..], sep), sep);
    }
  }

  /** Two word lists whose words have the same lengths join to strings of
      the same length. */
  lemma {:induction false} JoinSameLengths(a: seq<string>, b: seq<string>, sep: char)
    requires |a| == |b|
    requires forall i :: 0 <= i < |a| ==> |a[i]| == |b[i]|
    ensures |Join(a, sep)| == |Join(b, sep)|
  {
    if |a| > 1 {
      JoinSameLengths(a[1..], b[1..], sep);
    }
  }

  /** A capitalised word is the same word up to case: its first code unit is
      not a lower-case letter and the others are not upper-case letters. */
  lemma CapitalizeWordShape(w: string)
    ensures var r := CapitalizeWord(w);
      && |r| == |w|
      && (forall i :: 0 <= i < |w| ==> ToLower(r[i]) == ToLower(w[i]))
      && (r != [] ==> !IsAsciiLower(r[0]))
      && (forall i :: 1 <= i < |r| ==> !IsAsciiUpper(r[i]))
  {
  }

  /** Capitalising never introduces a code unit of a case-closed set. */
  lemma CapitalizeWordAvoids(w: string, bad: set<char>)
    requires CaseClosed(bad) && Avoids(w, bad)
    ensures Avoids(CapitalizeWord(w), bad)
  {
  }

  /** Joining words that avoid `bad` with a separator outside `bad` gives a
      string that avoids `bad`. */
  lemma {:induction false} JoinAvoids(words: seq<string>, sep: char, bad: set<char>)
    requires sep !in bad
    requires forall i :: 0 <= i < |words| ==> Avoids(words[i], bad)
    ensures Avoids(Join(words, sep), bad)
  {
    if |words| > 1 {
      JoinAvoids(words[1..], sep, bad);
    }
  }

  /** Every word produced by `split` avoids what `s` avoids. */
  lemma {:induction false} SplitAvoids(s: string, sep: char, bad: set<char>)
    requires Avoids(s, bad)
    ensures forall i :: 0 <= i < |Split(s, sep)| ==> Avoids(Split(s, sep)[i], bad)
  {
    if s != [] {
      SplitAvoids(s[1..], sep, bad);
    }
  }

  /** The capitalisation chain keeps the number of space-separated words,
      and each word comes out capitalised with its length kept; so the whole
      string keeps its length. */
  lemma TitleCaseWords(s: string)
    ensures Split(TitleCase(s), ' ') == CapitalizeAll(Split(s, ' '))
    ensures |TitleCase(s)| == |s|
  {
    var words := Split(s, ' ');
    var caps := CapitalizeAll(words);
    SplitWordsAvoidSep(s, ' ');
    forall w | w in caps
      ensures ' ' !in w
    {
      var i :| 0 <= i < |caps| && caps[i] == w;
      CapitalizeWordAvoids(words[i], {' '});
    }
    SplitJoin(caps, ' ');
    forall i | 0 <= i < |caps|
      ensures |caps[i]| == |words[i]|
    {
      CapitalizeWordShape(words[i]);
    }
    JoinSameLengths(caps, words, ' ');
    JoinSplit(s, ' ');
  }

  /** Two words joined by one space are capitalised word by word. */
  lemma TitleCaseTwoWords(a: string, b: string)
    requires ' ' !in a && ' ' !in b
    ensures TitleCase(a + [' '] + b) == CapitalizeWord(a) + [' '] + CapitalizeWord(b)
  {
    SplitOfWordAndRest(a, b, ' ');
    SplitOfWord(b, ' ');
    assert Split(a + [' '] + b, ' ') == [a, b];
    var caps := CapitalizeAll([a, b]);
    assert caps == [CapitalizeWord(a), CapitalizeWord(b)];
    assert caps[1..] == [CapitalizeWord(b)];
    assert Join(caps, ' ') == caps[0] + [' '] + Join(caps[1..], ' ');
    assert TitleCase(a + [' '] + b) == Join(caps, ' ');
  }

  /** The capitalisation chain introduces no code unit of a case-closed set
      that does not contain the space. */
  lemma TitleCaseAvoids(s: string, bad: set<char>)
    requires ' ' !in bad && CaseClosed(bad) && Avoids(s, bad)
    ensures Avoids(TitleCase(s), bad)
  {
    var words := Split(s, ' ');
    SplitAvoids(s, ' ', bad);
    var caps := CapitalizeAll(words);
    forall i | 0 <= i < |caps|
      ensures Avoids(caps[i], bad)
    {
      CapitalizeWordAvoids(words[i], bad);
    }
    JoinAvoids(caps, ' ', bad);
  }

  /** The first code unit of a title-cased string is the upper-cased first
      code unit of the input. */
  lemma TitleCaseFirst(s: string)
    requires s != []
    ensures |TitleCase(s)| == |s|
    ensures TitleCase(s)[0] == ToUpper(s[0])
  {
    TitleCaseWords(s);
    var words := Split(s, ' ');
    var caps := CapitalizeAll(words);
    if s[0] == ' ' {
      assert Split(s, ' ') == [[]] + Split(s[1..], ' ');
      assert caps[0] == [];
      assert TitleCase(s) == caps[0] + [' '] + Join(caps[1..], ' ');
    } else {
      assert words[0] != [] && words[0][0] == s[0];
      assert caps[0][0] == ToUpper(s[0]);
      if |caps| > 1 {
        assert TitleCase(s) == caps[0] + [' '] + Join(caps[1..], ' ');
      }
    }
  }
}
