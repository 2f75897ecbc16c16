/** The two filename sanitisers of the text-to-speech path: the server's
    `generateValidFilename`, which works on UTF-16 code units and collapses
    whitespace runs, and the shell script's `generate_valid_filename`, which
    works on code points and replaces single spaces only. Both remove the
    characters a file system path may not hold, cut the stem to 50 units,
    fall back to `default` and add `.wav`. */
module AudioFilename {
  import opened Common
  import opened JsText

  /** The characters both sanitisers remove: `< > : " / \ | ? *`. */
  const ForbiddenChars: set<char> := {'<', '>', ':', '"', '/', '\\', '|', '?', '*'}

  predicate IsForbidden(c: char) {
    c in ForbiddenChars
  }

  /** The same class on code units; every member is ASCII. */
  predicate IsForbiddenCode(u: int) {
    0 <= u < 0x80 && IsForbidden(u as char)
  }

  /** A unit the server's name may not hold in its stem. */
  predicate IsStemExcluded(u: int) {
    IsForbiddenCode(u) || IsSpaceCode(u)
  }

  /** A character is forbidden exactly when its code is. */
  lemma ForbiddenAgree(c: char)
    ensures IsForbidden(c) <==> IsForbiddenCode(c as int)
  {
    assert IsForbidden(c) ==> c as int < 0x80;
  }

  const StemLimit: nat := 50

  const Extension: string := ".wav"
  const Fallback: string := "default"

  /** `.wav` and `default` in UTF-16 code units. */
  const ExtensionUnits: seq<CodeUnit> := [0x2E, 0x77, 0x61, 0x76]
  const FallbackUnits: seq<CodeUnit> := [0x64, 0x65, 0x66, 0x61, 0x75, 0x6C, 0x74]

  /** `/public/`, the URL directory the audio files are served from. */
  const PublicDir: string := "/public/"
  const PublicDirUnits: seq<CodeUnit> := [0x2F, 0x70, 0x75, 0x62, 0x6C, 0x69, 0x63, 0x2F]

  lemma LiteralUnits()
    ensures Utf16(Extension) == ExtensionUnits
    ensures Utf16(Fallback) == FallbackUnits
    ensures Utf16(Fallback + Extension) == FallbackUnits + ExtensionUnits
  {
    ExtensionEncoding();
    FallbackEncoding();
    Utf16Append(Fallback, Extension);
  }

  lemma ExtensionEncoding()
    ensures Utf16(Extension) == ExtensionUnits
  {
  }

  lemma FallbackEncoding()
    ensures Utf16(Fallback) == FallbackUnits
  {
    Utf16Bmp(Fallback);
  }

  lemma PublicDirEncoding()
    ensures Utf16(PublicDir) == PublicDirUnits
  {
    Utf16Bmp(PublicDir);
  }

  /** `s[:n]` / `s.substring(0, n)`: at most the first `n` elements. */
  function Prefix<T>(s: seq<T>, n: nat): (r: seq<T>)
    ensures |r| <= n && |r| <= |s|
    ensures |s| <= n ==> r == s
    ensures |s| > n ==> |r| == n
    ensures r == s[..|r|]
  {
    if |s| <= n then s else s[..n]
  }

  /** `replace(/[<>:"/\\|?*]/g, '')`, and `re.sub` with the same class. */
  function RemoveForbidden(s: string): (r: string)
    ensures |r| <= |s|
    ensures forall i :: 0 <= i < |r| ==> !IsForbidden(r[i])
  {
    if |s| == 0 then []
    else (if IsForbidden(s[0]) then [] else [s[0]]) + RemoveForbidden(s[1..])
  }

  /** Removal keeps exactly the other characters, in their order. */
  lemma {:induction false} RemoveForbiddenKeeps(s: string)
    ensures forall c :: c in RemoveForbidden(s) <==> c in s && !IsForbidden(c)
    ensures forall c :: multiset(RemoveForbidden(s))[c] == if IsForbidden(c) then 0 else multiset(s)[c]
    ensures IsSubsequence(RemoveForbidden(s), s)
    decreases |s|
  {
    if |s| > 0 {
      RemoveForbiddenKeeps(s[1..]);
      var rest := RemoveForbidden(s[1..]);
      assert s == [s[0]] + s[1..];
      if IsForbidden(s[0]) {
        assert RemoveForbidden(s) == rest;
        SubsequenceSkip(rest, s[0], s[1..]);
      } else {
        assert RemoveForbidden(s) == [s[0]] + rest;
        assert ([s[0]] + rest)[1..] == rest;
      }
    }
    RemoveForbiddenCounts(s);
  }

  lemma {:induction false} RemoveForbiddenCounts(s: string)
    ensures forall c :: multiset(RemoveForbidden(s))[c] == if IsForbidden(c) then 0 else multiset(s)[c]
    decreases |s|
  {
    if |s| > 0 {
      RemoveForbiddenCounts(s[1..]);
      assert s == [s[0]] + s[1..];
    }
  }

  /** Removing is idempotent: nothing is left to remove. */
  lemma {:induction false} RemoveForbiddenIdempotent(s: string)
    requires forall i :: 0 <= i < |s| ==> !IsForbidden(s[i])
    ensures RemoveForbidden(s) == s
    decreases |s|
  {
    if |s| > 0 {
      RemoveForbiddenIdempotent(s[1..]);
      assert [s[0]] + s[1..] == s;
    }
  }

  // ---------------------------------------------------------------------
  // generateValidFilename (server)
  // ---------------------------------------------------------------------

  /** The stem before the cut: forbidden characters removed, then every
      whitespace run replaced by one `_`. */
  function ServerStemText(text: string): string {
    ReplaceRuns(RemoveForbidden(text), IsSpace, '_')
  }

  /** `generateValidFilename(text)`, in UTF-16 code units: `substring(0, 50)`
      counts units, so the cut can fall between the halves of a surrogate
      pair. */
  function ServerFilename(text: string): (r: seq<CodeUnit>)
    ensures |r| <= StemLimit + 4
    ensures |r| >= 4 && r[|r| - 4..] == ExtensionUnits
    ensures |RemoveForbidden(text)| == 0 ==> r == FallbackUnits + ExtensionUnits
    ensures |RemoveForbidden(text)| > 0 ==>
              r == Prefix(Utf16(ServerStemText(text)), StemLimit) + ExtensionUnits
  {
    var stemText := ServerStemText(text);
    var stem := Prefix(Utf16(stemText), StemLimit);
    ServerStemNonEmpty(text);
    if |stem| == 0 then
      FallbackUnits + ExtensionUnits
    else
      stem + ExtensionUnits
  }

  /** The name holds none of the forbidden characters, and its stem no
      whitespace. */
  lemma ServerFilenameClean(text: string)
    ensures CleanName(ServerFilename(text))
  {
    if |RemoveForbidden(text)| == 0 {
      FallbackClean();
    } else {
      ServerStemUnits(text);
      PrefixClean(Utf16(ServerStemText(text)), StemLimit);
      NameClean(Prefix(Utf16(ServerStemText(text)), StemLimit));
    }
  }

  /** No unit of the name is forbidden, and none before `.wav` is
      whitespace. */
  predicate CleanName(r: seq<CodeUnit>) {
    && (forall k :: 0 <= k < |r| ==> !IsForbiddenCode(r[k]))
    && (forall k :: 0 <= k < |r| - 4 ==> !IsSpaceCode(r[k]))
  }

  predicate CleanStem(u: seq<CodeUnit>) {
    forall k :: 0 <= k < |u| ==> !IsStemExcluded(u[k])
  }

  /** A stem free of excluded units, followed by `.wav`. */
  lemma NameClean(stem: seq<CodeUnit>)
    requires CleanStem(stem)
    ensures CleanName(stem + ExtensionUnits)
  {
    assert forall k :: 0 <= k < |ExtensionUnits| ==> !IsForbiddenCode(ExtensionUnits[k]);
  }

  lemma FallbackClean()
    ensures CleanName(FallbackUnits + ExtensionUnits)
  {
    forall k | 0 <= k < |FallbackUnits| ensures !IsStemExcluded(FallbackUnits[k]) {
      LetterUnitClean(FallbackUnits[k]);
    }
    NameClean(FallbackUnits);
  }

  /** A lower-case ASCII letter is neither forbidden nor whitespace. */
  lemma LetterUnitClean(u: int)
    requires 0x61 <= u <= 0x7A
    ensures !IsStemExcluded(u)
  {
  }

  lemma PrefixClean(units: seq<CodeUnit>, n: nat)
    requires CleanStem(units)
    ensures CleanStem(Prefix(units, n))
  {
  }

  /** The stem text is empty only when the filtered text is. */
  lemma ServerStemNonEmpty(text: string)
    ensures |ServerStemText(text)| == 0 <==> |RemoveForbidden(text)| == 0
    ensures |Utf16(ServerStemText(text))| == 0 <==> |RemoveForbidden(text)| == 0
  {
  }

  /** The stem text holds no forbidden and no whitespace character. */
  lemma ServerStemChars(text: string)
    ensures forall i :: 0 <= i < |ServerStemText(text)| ==>
              !IsForbidden(ServerStemText(text)[i]) && !IsSpace(ServerStemText(text)[i])
  {
    var f := RemoveForbidden(text);
    var stem := ServerStemText(text);
    forall i | 0 <= i < |stem|
      ensures !IsForbidden(stem[i]) && !IsSpace(stem[i])
    {
      ReplaceRunsFrom(f, i);
      assert !IsForbidden('_');
    }
  }

  /** ... and so its encoding holds no forbidden and no whitespace unit. */
  lemma ServerStemUnits(text: string)
    ensures CleanStem(Utf16(ServerStemText(text)))
  {
    StemCodesAllowed(text);
    StemExcludedOutsideSurrogates();
    Utf16Avoids(ServerStemText(text), IsStemExcluded);
  }

  lemma StemCodesAllowed(text: string)
    ensures forall i :: 0 <= i < |ServerStemText(text)| ==> !IsStemExcluded(ServerStemText(text)[i] as int)
  {
    var stem := ServerStemText(text);
    ServerStemChars(text);
    forall i | 0 <= i < |stem| ensures !IsStemExcluded(stem[i] as int) {
      ForbiddenAgree(stem[i]);
    }
  }

  lemma StemExcludedOutsideSurrogates()
    ensures forall u :: IsStemExcluded(u) ==> u < 0xD800 || 0xE000 <= u
  {
  }

  /** Every character of the run replacement is either `_` or a character
      of its input. */
  lemma ReplaceRunsFrom(f: string, i: nat)
    requires i < |ReplaceRuns(f, IsSpace, '_')|
    ensures var c := ReplaceRuns(f, IsSpace, '_')[i];
            c == '_' || (c in f && !IsSpace(c))
  {
    ReplaceRunsMembers(f);
  }

  lemma {:induction false} ReplaceRunsMembers(f: string)
    ensures forall c :: c in ReplaceRuns(f, IsSpace, '_') ==> c == '_' || (c in f && !IsSpace(c))
    decreases |f|
  {
    if |f| > 0 {
      if IsSpace(f[0]) {
        var n := LeadRun(f, IsSpace);
        ReplaceRunsMembers(f[n..]);
        assert forall c :: c in f[n..] ==> c in f;
      } else {
        ReplaceRunsMembers(f[1..]);
        assert forall c :: c in f[1..] ==> c in f;
      }
    }
  }

  /** On success `generateAudio` answers `/public/` followed by the file
      name. */
  function AudioUrl(text: string): (r: seq<CodeUnit>)
    ensures |r| > |PublicDirUnits| && r[..|PublicDirUnits|] == PublicDirUnits
    ensures r[|PublicDirUnits|..] == ServerFilename(text)
  {
    PublicDirUnits + ServerFilename(text)
  }

  /** The file name adds no path segment: the URL names a file directly in
      `/public/`. */
  lemma AudioUrlSingleSegment(text: string)
    ensures var r := AudioUrl(text);
            forall k :: |PublicDirUnits| <= k < |r| ==> r[k] != '/' as int
  {
    ServerFilenameClean(text);
    NoSlashAfter(PublicDirUnits, ServerFilename(text));
  }

  lemma NoSlashAfter(dir: seq<CodeUnit>, name: seq<CodeUnit>)
    requires CleanName(name)
    ensures forall k :: |dir| <= k < |dir + name| ==> (dir + name)[k] != '/' as int
  {
    assert forall k :: |dir| <= k < |dir + name| ==> (dir + name)[k] == name[k - |dir|];
  }

  // ---------------------------------------------------------------------
  // generate_valid_filename (shell script)
  // ---------------------------------------------------------------------

  /** `filename.replace(' ', '_')`: each space on its own; tabs, newlines
      and the other whitespace are kept. */
  function ReplaceSpaces(s: string): (r: string)
    ensures |r| == |s|
    ensures forall i :: 0 <= i < |s| ==> r[i] == (if s[i] == ' ' then '_' else s[i])
  {
    if |s| == 0 then [] else [if s[0] == ' ' then '_' else s[0]] + ReplaceSpaces(s[1..])
  }

  /** `generate_valid_filename(text)`, on code points. */
  function ScriptFilename(text: string): (r: string)
    ensures |r| <= StemLimit + 4
    ensures |r| >= 4 && r[|r| - 4..] == Extension
    ensures forall k :: 0 <= k < |r| ==> !IsForbidden(r[k])
    ensures forall k :: 0 <= k < |r| - 4 ==> r[k] != ' '
    ensures |RemoveForbidden(text)| == 0 ==> r == "default" + Extension
    ensures |RemoveForbidden(text)| > 0 ==>
              r == Prefix(ReplaceSpaces(RemoveForbidden(text)), StemLimit) + Extension
  {
    var stem := Prefix(ReplaceSpaces(RemoveForbidden(text)), StemLimit);
    LiteralsClean();
    if |stem| == 0 then "default" + Extension else stem + Extension
  }

  /** Neither `default` nor `.wav` holds a forbidden character. */
  lemma LiteralsClean()
    ensures forall k :: 0 <= k < |Extension| ==> !IsForbidden(Extension[k])
    ensures forall k :: 0 <= k < |Fallback + Extension| ==> !IsForbidden((Fallback + Extension)[k])
  {
    assert !IsForbidden('.') && !IsForbidden('w') && !IsForbidden('a') && !IsForbidden('v');
    assert !IsForbidden('d') && !IsForbidden('e') && !IsForbidden('f') && !IsForbidden('u') && !IsForbidden('l') && !IsForbidden('t');
  }

  // ---------------------------------------------------------------------
  // Where the two agree, and where they do not
  // ---------------------------------------------------------------------

  /** No two spaces are adjacent and no other whitespace occurs. */
  predicate IsolatedSpaces(s: string) {
    && (forall i :: 0 <= i < |s| && IsSpace(s[i]) ==> s[i] == ' ')
    && (forall i :: 0 <= i < |s| - 1 ==> !(s[i] == ' ' && s[i + 1] == ' '))
  }

  /** With isolated spaces only, replacing runs is replacing spaces. */
  lemma {:induction false} RunsAreSpaces(s: string)
    requires IsolatedSpaces(s)
    ensures ReplaceRuns(s, IsSpace, '_') == ReplaceSpaces(s)
    decreases |s|
  {
    if |s| > 0 {
      assert IsolatedSpaces(s[1..]);
      RunsAreSpaces(s[1..]);
      if s[0] == ' ' {
        ReplaceRunsRun([s[0]], s[1..], IsSpace, '_');
      } else {
        ReplaceRunsWord([s[0]], s[1..], IsSpace, '_');
      }
      assert [s[0]] + s[1..] == s;
    }
  }

  /** For BMP text whose filtered form has only isolated spaces, the server
      and the script choose the same name. */
  lemma SanitisersAgree(text: string)
    requires IsBmp(text)
    requires IsolatedSpaces(RemoveForbidden(text))
    ensures ServerFilename(text) == Utf16(ScriptFilename(text))
  {
    LiteralUnits();
    if |RemoveForbidden(text)| > 0 {
      RemoveForbiddenBmp(text);
      StemsAgree(RemoveForbidden(text));
    } else {
      assert ScriptFilename(text) == Fallback + Extension;
    }
  }

  /** On a non-empty filtered BMP text with isolated spaces the two stems,
      cut and suffixed, encode alike. */
  lemma StemsAgree(f: string)
    requires |f| > 0 && IsBmp(f) && IsolatedSpaces(f)
    ensures Prefix(Utf16(ReplaceRuns(f, IsSpace, '_')), StemLimit) + ExtensionUnits
            == Utf16(Prefix(ReplaceSpaces(f), StemLimit) + Extension)
  {
    RunsAreSpaces(f);
    ReplaceSpacesBmp(f);
    BmpCutAgrees(ReplaceSpaces(f));
  }

  lemma ReplaceSpacesBmp(f: string)
    requires IsBmp(f)
    ensures IsBmp(ReplaceSpaces(f))
  {
  }

  /** For BMP text, cutting after 50 characters and cutting after 50 code
      units agree. */
  lemma BmpCutAgrees(s: string)
    requires IsBmp(s)
    ensures Prefix(Utf16(s), StemLimit) + ExtensionUnits == Utf16(Prefix(s, StemLimit) + Extension)
  {
    Utf16Bmp(s);
    Utf16BmpPrefix(s, |Prefix(s, StemLimit)|);
    Utf16Append(Prefix(s, StemLimit), Extension);
    LiteralUnits();
  }

  /** Filtering keeps a BMP text in the BMP. */
  lemma {:induction false} RemoveForbiddenBmp(s: string)
    requires IsBmp(s)
    ensures IsBmp(RemoveForbidden(s))
    decreases |s|
  {
    if |s| > 0 {
      assert IsBmp(s[1..]);
      RemoveForbiddenBmp(s[1..]);
    }
  }

  /** The script's name for a text with nothing to remove and at most 50
      characters. */
  lemma ScriptFilenameShort(text: string)
    requires 0 < |text| <= StemLimit
    requires forall i :: 0 <= i < |text| ==> !IsForbidden(text[i])
    ensures ScriptFilename(text) == ReplaceSpaces(text) + Extension
  {
    RemoveForbiddenIdempotent(text);
    assert Prefix(ReplaceSpaces(text), StemLimit) == ReplaceSpaces(text);
  }

  /** The server's name for a BMP text with nothing to remove whose stem
      has at most 50 characters. */
  lemma ServerFilenameShort(text: string, stem: string)
    requires |text| > 0
    requires forall i :: 0 <= i < |text| ==> !IsForbidden(text[i])
    requires stem == ReplaceRuns(text, IsSpace, '_')
    requires IsBmp(stem) && |stem| <= StemLimit
    ensures ServerFilename(text) == Utf16(stem + Extension)
  {
    RemoveForbiddenIdempotent(text);
    BmpCutAgrees(stem);
  }

  /** A name character both sanitisers keep as it is. */
  predicate Plain(x: char) {
    !IsSpace(x) && !IsForbidden(x) && x as int < 0x1_0000
  }

  /** A run `gap` of whitespace before a kept character becomes one `_`. */
  lemma CollapseTail(gap: string, y: char)
    requires Plain(y)
    requires |gap| > 0 && forall i :: 0 <= i < |gap| ==> IsSpace(gap[i])
    ensures ReplaceRuns(gap + [y], IsSpace, '_') == ['_', y]
  {
    KeepOne(y);
    ReplaceRunsRun(gap, [y], IsSpace, '_');
  }

  lemma KeepOne(y: char)
    requires !IsSpace(y)
    ensures ReplaceRuns([y], IsSpace, '_') == [y]
  {
  }

  /** A run of spaces: the server writes one `_`, the script one per space. */
  lemma SpaceRunDiverges(x: char, y: char)
    requires Plain(x) && Plain(y)
    ensures ServerFilename([x, ' ', ' ', y]) == Utf16([x, '_', y] + Extension)
    ensures ScriptFilename([x, ' ', ' ', y]) == [x, '_', '_', y] + Extension
  {
    ServerSpaceRun(x, y);
    ScriptSpaceRun(x, y);
  }

  lemma ServerSpaceRun(x: char, y: char)
    requires Plain(x) && Plain(y)
    ensures ServerFilename([x, ' ', ' ', y]) == Utf16([x, '_', y] + Extension)
  {
    var text := [x] + ("  " + [y]);
    assert text == [x, ' ', ' ', y];
    CollapseTail("  ", y);
    ReplaceRunsWord([x], "  " + [y], IsSpace, '_');
    ServerFilenameShort(text, [x, '_', y]);
  }

  lemma ScriptSpaceRun(x: char, y: char)
    requires Plain(x) && Plain(y)
    ensures ScriptFilename([x, ' ', ' ', y]) == [x, '_', '_', y] + Extension
  {
    var text := [x, ' ', ' ', y];
    ScriptFilenameShort(text);
    assert ReplaceSpaces(text) == [x, '_', '_', y];
  }

  /** A tab: the server writes `_`, the script keeps the tab. */
  lemma TabDiverges(x: char, y: char)
    requires Plain(x) && Plain(y)
    ensures ServerFilename([x, '\t', y]) == Utf16([x, '_', y] + Extension)
    ensures ScriptFilename([x, '\t', y]) == [x, '\t', y] + Extension
  {
    ServerTab(x, y);
    ScriptTab(x, y);
  }

  lemma ServerTab(x: char, y: char)
    requires Plain(x) && Plain(y)
    ensures ServerFilename([x, '\t', y]) == Utf16([x, '_', y] + Extension)
  {
    var text := [x] + ("\t" + [y]);
    assert text == [x, '\t', y];
    CollapseTail("\t", y);
    ReplaceRunsWord([x], "\t" + [y], IsSpace, '_');
    ServerFilenameShort(text, [x, '_', y]);
  }

  lemma ScriptTab(x: char, y: char)
    requires Plain(x) && Plain(y)
    ensures ScriptFilename([x, '\t', y]) == [x, '\t', y] + Extension
  {
    var text := [x, '\t', y];
    ScriptFilenameShort(text);
    assert ReplaceSpaces(text) == text;
  }

  /** A text that is literally `default` gets the same name as one with
      nothing left after filtering. */
  lemma DefaultCollides(c: char)
    requires IsForbidden(c)
    ensures ServerFilename(Fallback) == ServerFilename([c])
    ensures ScriptFilename(Fallback) == ScriptFilename([c])
  {
    assert RemoveForbidden([c]) == [];
    ServerDefault();
    ScriptDefault();
  }

  /** Lower-case ASCII letters are neither whitespace nor forbidden. */
  lemma LetterPlain(c: char)
    requires 'a' <= c <= 'z'
    ensures Plain(c)
  {
  }

  lemma ServerDefault()
    ensures ServerFilename(Fallback) == FallbackUnits + ExtensionUnits
  {
    forall i | 0 <= i < |Fallback| ensures Plain(Fallback[i]) {
      LetterPlain(Fallback[i]);
    }
    ReplaceRunsWord(Fallback, "", IsSpace, '_');
    assert Fallback + "" == Fallback;
    ServerFilenameShort(Fallback, Fallback);
    LiteralUnits();
  }

  lemma ScriptDefault()
    ensures ScriptFilename(Fallback) == Fallback + Extension
  {
    FallbackPlain();
    ScriptOfPlain(Fallback);
  }

  lemma FallbackPlain()
    ensures AllPlain(Fallback)
  {
    forall i | 0 <= i < |Fallback| ensures Plain(Fallback[i]) {
      LetterPlain(Fallback[i]);
    }
  }

  predicate AllPlain(s: string) {
    forall i :: 0 <= i < |s| ==> Plain(s[i])
  }

  /** The script keeps a short name made of plain characters as it is. */
  lemma ScriptOfPlain(s: string)
    requires 0 < |s| <= StemLimit && AllPlain(s)
    ensures ScriptFilename(s) == s + Extension
  {
    ScriptFilenameShort(s);
    assert ReplaceSpaces(s) == s;
  }
}
