/** The download-name helpers that newtab/newtab.js and popup/popup.js both
    define, character for character: `sanitizeFilename` and
    `getFileExtension`. */
module FileNames {
  import opened Text

  /** The code units of the character class `[a-zA-Z0-9-_]`. */
  predicate IsSafeChar(c: char) {
    IsAsciiLower(c) || IsAsciiUpper(c) || ('0' <= c <= '9') || c == '-' || c == '_'
  }

  /** `.mp4`, `.mp3`, `.wav` or `.webm` in any ASCII case. Without the `u`
      flag, `/i` folds only ASCII letters onto these letters, so comparing
      ASCII-lower-cased text is exact. */
  predicate IsMediaExtension(e: string) {
    |e| >= 1 && e[0] == '.' && Lower(e[1..]) in {"mp4", "mp3", "wav", "webm"}
  }

  /** `s.match(/\.(mp4|mp3|wav|webm)$/i)`, giving the matched text or "". The
      match is the media-extension suffix, in its original case, if there is
      one. */
  function GetFileExtension(s: string): (r: string)
    ensures |r| == 0 || |r| == 4 || |r| == 5
    ensures r != [] ==> IsMediaExtension(r) && |r| <= |s| && r == s[|s| - |r|..]
  {
    if |s| >= 5 && IsMediaExtension(s[|s| - 5..]) then s[|s| - 5..]
    else if |s| >= 4 && IsMediaExtension(s[|s| - 4..]) then s[|s| - 4..]
    else []
  }

  /** `s.replace(/[^a-zA-Z0-9-_]/g, '_')`. */
  function SanitizeBase(s: string): (r: string)
    ensures |r| == |s|
    ensures forall i | 0 <= i < |r| :: IsSafeChar(r[i])
    ensures forall i | 0 <= i < |s| :: r[i] == s[i] <==> IsSafeChar(s[i])
    ensures forall i | 0 <= i < |s| :: r[i] != s[i] ==> r[i] == '_'
  {
    seq(|s|, i requires 0 <= i < |s| => if IsSafeChar(s[i]) then s[i] else '_')
  }

  /** `sanitizeFilename`: the sanitised name followed by the extension found
      on the ORIGINAL name. Each input code unit gives exactly one safe code
      unit (itself when it is safe), and then come 0, 4 or 5 more. */
  function SanitizeFilename(s: string): (r: string)
    ensures |r| == |s| || |r| == |s| + 4 || |r| == |s| + 5
    ensures forall i | 0 <= i < |s| :: IsSafeChar(r[i]) && (IsSafeChar(s[i]) <==> r[i] == s[i])
    ensures r[|s|..] == GetFileExtension(s)
  {
    var base := SanitizeBase(s);
    var ext := GetFileExtension(s);
    assert (base + ext)[|s|..] == ext;
    assert forall i | 0 <= i < |s| :: (base + ext)[i] == base[i];
    base + ext
  }

  // ---------------------------------------------------------------------
  // Lemmas

  /** Any suffix of `s` that is a media extension is exactly the extension
      found: a four-unit one cannot also end a five-unit one, whose text
      after its dot would then start with '.'. With the function's own
      `ensures`, the result is empty exactly when no suffix of `s` is a media
      extension. */
  lemma GetFileExtensionComplete(s: string, k: nat)
    requires k <= |s| && IsMediaExtension(s[k..])
    ensures GetFileExtension(s) == s[k..]
  {
    MediaExtensionLength(s[k..]);
    if |s| - k == 4 && |s| >= 5 {
      var f := s[|s| - 5..];
      assert f[1..] == s[k..];
      assert Lower(f[1..])[0] == '.';
    }
  }

  /** A media extension is four or five code units long. */
  lemma MediaExtensionLength(e: string)
    requires IsMediaExtension(e)
    ensures |e| == 4 || |e| == 5
  {
    assert |Lower(e[1..])| == |e| - 1;
  }

  /** The extension is kept in its original case, and it is also recognised
      on its own. */
  lemma ExtensionOfExtension(s: string)
    ensures GetFileExtension(GetFileExtension(s)) == GetFileExtension(s)
  {
    var e := GetFileExtension(s);
    if e != [] {
      MediaExtensionLength(e);
      assert e[|e| - |e|..] == e;
      if |e| == 5 {
        assert IsMediaExtension(e[|e| - 5..]);
      } else {
        assert IsMediaExtension(e[|e| - 4..]);
      }
    } else {
      assert GetFileExtension(e) == [];
    }
  }

  /** Every name ending in ".mp4" has exactly ".mp4" as its extension:
      the five code units before the end hold ".mp4" after their first,
      which is not an extension name. */
  lemma Mp4Extension(a: string)
    ensures GetFileExtension(a + ".mp4") == ".mp4"
  {
    var s := a + ".mp4";
    assert s[|s| - 4..] == ".mp4";
    assert ".mp4"[1..] == "mp4" && Lower("mp4") == "mp4";
    if |s| >= 5 {
      assert s[|s| - 5..][1..] == ".mp4";
      assert Lower(".mp4")[0] == '.';
    }
  }

  /** An input that already ends in an extension keeps a sanitised copy of
      it in the base: "clip.mp4" is downloaded as "clip_mp4.mp4". */
  lemma SanitizeExample()
    ensures SanitizeFilename("clip.mp4") == "clip_mp4.mp4"
  {
    var s := "clip.mp4";
    assert s == "clip" + ".mp4";
    Mp4Extension("clip");
    SanitizeBaseDot();
    assert SanitizeFilename(s) == SanitizeBase(s) + GetFileExtension(s);
    assert "clip_mp4" + ".mp4" == "clip_mp4.mp4";
  }

  lemma SanitizeBaseDot()
    ensures SanitizeBase("clip.mp4") == "clip_mp4"
  {
    var b := SanitizeBase("clip.mp4");
    assert b[0] == 'c' && b[1] == 'l' && b[2] == 'i' && b[3] == 'p';
    assert b[4] == '_' && b[5] == 'm' && b[6] == 'p' && b[7] == '4';
  }

  /** Spaces become underscores and no extension is added to a name
      without one: "My Song" is downloaded as "My_Song". */
  lemma SanitizePlainExample()
    ensures SanitizeFilename("My Song") == "My_Song"
  {
    var s := "My Song";
    assert s[7 - 5..][0] != '.' && s[7 - 4..][0] != '.';
    assert GetFileExtension(s) == [];
    assert SanitizeBase(s) == "My_Song";
  }
}
