/** The pure helpers of the sentence utilities: whitespace normalisation,
    punctuation stripping, comparison forms, and the validation of untyped
    JSON into sentence lists and preferences. */
module SentenceUtils {
  import opened Common
  import opened JsText

  // ---------------------------------------------------------------------
  // Unicode tables
  // ---------------------------------------------------------------------

  /** The Unicode facts the comparison forms depend on but whose tables are
      not spelled out: membership in the general categories P and S (the
      `[\p{P}\p{S}]` class) and the per-character result of `toLowerCase`. */
  datatype CharModel = CharModel(isPunctOrSymbol: char -> bool, lower: char -> string)

  /** What Unicode guarantees about those tables and the model relies on:
      no whitespace character is P or S, lowering leaves whitespace alone,
      and lowering a non-whitespace character never produces whitespace. */
  predicate ValidCharModel(cm: CharModel) {
    && (forall c :: IsSpace(c) ==> !cm.isPunctOrSymbol(c))
    && (forall c :: IsSpace(c) ==> cm.lower(c) == [c])
    && (forall c, j :: !IsSpace(c) && 0 <= j < |cm.lower(c)| ==> IsWordChar(cm.lower(c)[j]))
  }

  // ---------------------------------------------------------------------
  // Normalisation
  // ---------------------------------------------------------------------

  /** `value.replace(/\s+/g, " ").trim()`. */
  function Normalize(s: string): string {
    Trim(ReplaceRuns(s, IsSpace, ' '))
  }

  /** `normalize` yields the normal form, and that form is the single-space
      join of the input's whitespace-separated tokens. */
  lemma NormalizeSpec(s: string)
    ensures IsNormal(Normalize(s))
    ensures Tokens(Normalize(s)) == Tokens(s)
    ensures Normalize(s) == Join(Tokens(s))
  {
    RunsSingleSpaced(s);
    TrimSingleSpaced(ReplaceRuns(s, IsSpace, ' '));
    TokensTrim(ReplaceRuns(s, IsSpace, ' '));
    TokensReplaceRuns(s);
    NormalIsJoinOfTokens(Normalize(s));
  }

  /** Every whitespace character is a space and no two are adjacent. */
  predicate SingleSpaced(t: string) {
    && (forall i :: 0 <= i < |t| && IsSpace(t[i]) ==> t[i] == ' ')
    && (forall i :: 0 <= i < |t| - 1 ==> !(IsSpace(t[i]) && IsSpace(t[i + 1])))
  }

  lemma RunsSingleSpaced(s: string)
    ensures SingleSpaced(ReplaceRuns(s, IsSpace, ' '))
  {
  }

  /** Trimming a single-spaced string leaves it in normal form. */
  lemma TrimSingleSpaced(t: string)
    requires SingleSpaced(t)
    ensures IsNormal(Trim(t))
  {
    SingleSpacedSlice(t, LeadRun(t, IsSpace), |TrimStart(t)| - TrailRun(TrimStart(t), IsSpace));
  }

  lemma SingleSpacedSlice(t: string, a: nat, n: nat)
    requires a <= |t| && n <= |t| - a
    requires SingleSpaced(t)
    ensures var u := t[a..][..n];
            && (forall i :: 0 <= i < |u| && IsSpace(u[i]) ==> u[i] == ' ')
            && (forall i :: 0 <= i < |u| - 1 && IsSpace(u[i]) ==> !IsSpace(u[i + 1]))
  {
    var u := t[a..][..n];
    forall i | 0 <= i < |u| - 1 && IsSpace(u[i])
      ensures !IsSpace(u[i + 1])
    {
      assert u[i] == t[a + i] && u[i + 1] == t[a + i + 1];
    }
  }

  lemma NormalizeIdempotent(s: string)
    ensures Normalize(Normalize(s)) == Normalize(s)
  {
    NormalizeSpec(s);
    NormalizeSpec(Normalize(s));
  }

  /** Two strings normalise alike exactly when they have the same tokens. */
  lemma NormalizeEqualIffTokens(a: string, b: string)
    ensures Normalize(a) == Normalize(b) <==> Tokens(a) == Tokens(b)
  {
    NormalizeSpec(a);
    NormalizeSpec(b);
  }

  // ---------------------------------------------------------------------
  // Punctuation, case and comparison forms
  // ---------------------------------------------------------------------

  /** `value.replace(/[\p{P}\p{S}]/gu, "")`. */
  function StripPunctuation(cm: CharModel, s: string): string {
    if |s| == 0 then []
    else (if cm.isPunctOrSymbol(s[0]) then [] else [s[0]]) + StripPunctuation(cm, s[1..])
  }

  /** Stripping leaves no P/S character. */
  lemma {:induction false} StripPunctuationNoPunct(cm: CharModel, s: string)
    ensures forall i :: 0 <= i < |StripPunctuation(cm, s)| ==> !cm.isPunctOrSymbol(StripPunctuation(cm, s)[i])
  {
    if |s| > 0 {
      StripPunctuationNoPunct(cm, s[1..]);
    }
  }

  /** Stripping keeps every other character with its multiplicity. */
  lemma {:induction false} StripPunctuationKeeps(cm: CharModel, s: string)
    ensures forall c :: !cm.isPunctOrSymbol(c) ==> multiset(StripPunctuation(cm, s))[c] == multiset(s)[c]
  {
    if |s| > 0 {
      StripPunctuationKeeps(cm, s[1..]);
      assert s == [s[0]] + s[1..];
    }
  }

  /** Stripping keeps the order: the result is a subsequence of the input. */
  lemma {:induction false} StripPunctuationOrdered(cm: CharModel, s: string)
    ensures IsSubsequence(StripPunctuation(cm, s), s)
  {
    if |s| > 0 {
      StripPunctuationOrdered(cm, s[1..]);
      var rest := StripPunctuation(cm, s[1..]);
      assert s == [s[0]] + s[1..];
      if cm.isPunctOrSymbol(s[0]) {
        assert StripPunctuation(cm, s) == rest;
        SubsequenceSkip(rest, s[0], s[1..]);
      } else {
        assert StripPunctuation(cm, s) == [s[0]] + rest;
        assert ([s[0]] + rest)[1..] == rest;
      }
    }
  }

  lemma {:induction false} StripPunctuationIdempotent(cm: CharModel, s: string)
    ensures StripPunctuation(cm, StripPunctuation(cm, s)) == StripPunctuation(cm, s)
  {
    if |s| > 0 {
      StripPunctuationIdempotent(cm, s[1..]);
      StripPunctuationNoPunct(cm, s[1..]);
      var rest := StripPunctuation(cm, s[1..]);
      if !cm.isPunctOrSymbol(s[0]) {
        assert StripPunctuation(cm, s) == [s[0]] + rest;
        assert ([s[0]] + rest)[1..] == rest;
      } else {
        assert StripPunctuation(cm, s) == rest;
      }
    }
  }

  /** `toLowerCase`, taken character by character. */
  function Lower(cm: CharModel, s: string): string {
    if |s| == 0 then [] else cm.lower(s[0]) + Lower(cm, s[1..])
  }

  /** `sanitizeWordForComparison`: punctuation removed, then lower-cased. */
  function SanitizeWord(cm: CharModel, s: string): string {
    Lower(cm, StripPunctuation(cm, s))
  }

  /** `normalizeForComparison`. */
  function NormalizeForComparison(cm: CharModel, s: string): string {
    Normalize(Lower(cm, StripPunctuation(cm, s)))
  }

  /** The sanitised forms of the words that survive sanitisation, in order:
      the words the aligner actually compares. */
  function ComparableWords(cm: CharModel, ws: seq<string>): (r: seq<string>)
    ensures |r| <= |ws|
    ensures forall i :: 0 <= i < |r| ==> |r[i]| > 0
  {
    if |ws| == 0 then []
    else
      var k := SanitizeWord(cm, ws[0]);
      (if |k| == 0 then [] else [k]) + ComparableWords(cm, ws[1..])
  }

  /** The whole-string comparison form is the single-space join of the
      sanitised tokens, so it decides equality token by token. */
  lemma NormalizeForComparisonSpec(cm: CharModel, s: string)
    requires ValidCharModel(cm)
    ensures NormalizeForComparison(cm, s) == Normalize(SanitizeWord(cm, s))
    ensures Tokens(NormalizeForComparison(cm, s)) == ComparableWords(cm, Tokens(s))
    ensures NormalizeForComparison(cm, s) == Join(ComparableWords(cm, Tokens(s)))
  {
    TokensOfSanitized(cm, s);
    NormalizeSpec(SanitizeWord(cm, s));
  }

  lemma TokensOfSanitized(cm: CharModel, s: string)
    requires ValidCharModel(cm)
    ensures Tokens(SanitizeWord(cm, s)) == ComparableWords(cm, Tokens(s))
  {
    SplitSanitized(cm, s);
    ComparableOfPieces(cm, SplitEach(s));
  }

  function MapSanitize(cm: CharModel, ws: seq<string>): (r: seq<string>)
    ensures |r| == |ws|
  {
    if |ws| == 0 then [] else [SanitizeWord(cm, ws[0])] + MapSanitize(cm, ws[1..])
  }

  lemma {:induction false} ComparableOfPieces(cm: CharModel, x: seq<string>)
    ensures NonEmpty(MapSanitize(cm, x)) == ComparableWords(cm, NonEmpty(x))
  {
    if |x| > 0 {
      ComparableOfPieces(cm, x[1..]);
      if |x[0]| == 0 {
        assert SanitizeWord(cm, x[0]) == [];
        assert NonEmpty(x) == NonEmpty(x[1..]);
      } else {
        assert NonEmpty(x) == [x[0]] + NonEmpty(x[1..]);
        assert ([x[0]] + NonEmpty(x[1..]))[1..] == NonEmpty(x[1..]);
      }
    }
  }

  lemma {:induction false} SanitizeAppend(cm: CharModel, a: string, b: string)
    ensures SanitizeWord(cm, a + b) == SanitizeWord(cm, a) + SanitizeWord(cm, b)
  {
    StripAppend(cm, a, b);
    LowerAppend(cm, StripPunctuation(cm, a), StripPunctuation(cm, b));
  }

  lemma {:induction false} StripAppend(cm: CharModel, a: string, b: string)
    ensures StripPunctuation(cm, a + b) == StripPunctuation(cm, a) + StripPunctuation(cm, b)
  {
    if |a| == 0 {
      assert a + b == b;
    } else {
      assert (a + b)[1..] == a[1..] + b;
      StripAppend(cm, a[1..], b);
    }
  }

  lemma {:induction false} LowerAppend(cm: CharModel, a: string, b: string)
    ensures Lower(cm, a + b) == Lower(cm, a) + Lower(cm, b)
  {
    if |a| == 0 {
      assert a + b == b;
    } else {
      assert (a + b)[1..] == a[1..] + b;
      LowerAppend(cm, a[1..], b);
    }
  }

  lemma SanitizeChar(cm: CharModel, c: char)
    ensures SanitizeWord(cm, [c]) == if cm.isPunctOrSymbol(c) then [] else cm.lower(c)
  {
    assert [c][1..] == [];
    if !cm.isPunctOrSymbol(c) {
      assert StripPunctuation(cm, [c]) == [c];
      assert Lower(cm, [c]) == cm.lower(c) + Lower(cm, []);
    } else {
      assert StripPunctuation(cm, [c]) == [];
    }
  }

  /** Sanitising commutes with splitting at whitespace. */
  lemma {:induction false} SplitSanitized(cm: CharModel, s: string)
    requires ValidCharModel(cm)
    ensures SplitEach(SanitizeWord(cm, s)) == MapSanitize(cm, SplitEach(s))
  {
    if |s| == 0 {
      assert SanitizeWord(cm, s) == [];
    } else {
      var c, t := s[0], s[1..];
      assert s == [c] + t;
      SanitizeAppend(cm, [c], t);
      SanitizeChar(cm, c);
      SplitSanitized(cm, t);
      if IsSpace(c) {
        SplitSanitizedSpace(cm, c, t);
      } else {
        SplitSanitizedWord(cm, c, t);
      }
    }
  }

  lemma SplitSanitizedSpace(cm: CharModel, c: char, t: string)
    requires ValidCharModel(cm) && IsSpace(c)
    requires SplitEach(SanitizeWord(cm, t)) == MapSanitize(cm, SplitEach(t))
    ensures SplitEach(SanitizeWord(cm, [c] + t)) == MapSanitize(cm, SplitEach([c] + t))
  {
    SanitizeAppend(cm, [c], t);
    SanitizeChar(cm, c);
    assert SanitizeWord(cm, [c]) == [c];
    assert ([c] + SanitizeWord(cm, t))[1..] == SanitizeWord(cm, t);
    assert ([c] + t)[1..] == t;
    assert SanitizeWord(cm, "") == "";
    assert SplitEach([c] + t) == [""] + SplitEach(t);
  }

  lemma SplitSanitizedWord(cm: CharModel, c: char, t: string)
    requires ValidCharModel(cm) && !IsSpace(c)
    requires SplitEach(SanitizeWord(cm, t)) == MapSanitize(cm, SplitEach(t))
    ensures SplitEach(SanitizeWord(cm, [c] + t)) == MapSanitize(cm, SplitEach([c] + t))
  {
    SanitizeChar(cm, c);
    var g := SanitizeWord(cm, [c]);
    assert forall j :: 0 <= j < |g| ==> IsWordChar(g[j]);
    SplitSanitizedGlue(cm, c, t, g);
  }

  lemma SplitSanitizedGlue(cm: CharModel, c: char, t: string, g: string)
    requires !IsSpace(c) && g == SanitizeWord(cm, [c])
    requires forall j :: 0 <= j < |g| ==> IsWordChar(g[j])
    requires SplitEach(SanitizeWord(cm, t)) == MapSanitize(cm, SplitEach(t))
    ensures SplitEach(SanitizeWord(cm, [c] + t)) == MapSanitize(cm, SplitEach([c] + t))
  {
    GlueSanitized(cm, c, t, g);
    PrependSanitized(cm, c, t);
    assert SplitEach(t) == [SplitEach(t)[0]] + SplitEach(t)[1..];
    MapSanitizeCons(SplitEach(t)[0], SplitEach(t)[1..], cm);
    SanitizeAppend(cm, [c], SplitEach(t)[0]);
  }

  /** A word character's sanitised form joins the first piece of the
      sanitised rest. */
  lemma GlueSanitized(cm: CharModel, c: char, t: string, g: string)
    requires g == SanitizeWord(cm, [c])
    requires forall j :: 0 <= j < |g| ==> IsWordChar(g[j])
    ensures SplitEach(SanitizeWord(cm, [c] + t))
              == [g + SplitEach(SanitizeWord(cm, t))[0]] + SplitEach(SanitizeWord(cm, t))[1..]
  {
    SanitizeAppend(cm, [c], t);
    SplitEachWord(g);
    SplitEachAppend(g, SanitizeWord(cm, t));
  }

  /** A word character joins the first piece of the split rest. */
  lemma PrependSanitized(cm: CharModel, c: char, t: string)
    requires !IsSpace(c)
    ensures MapSanitize(cm, SplitEach([c] + t))
              == [SanitizeWord(cm, [c] + SplitEach(t)[0])] + MapSanitize(cm, SplitEach(t)[1..])
  {
    assert ([c] + t)[1..] == t;
    MapSanitizeCons([c] + SplitEach(t)[0], SplitEach(t)[1..], cm);
  }

  lemma MapSanitizeCons(w: string, ws: seq<string>, cm: CharModel)
    ensures MapSanitize(cm, [w] + ws) == [SanitizeWord(cm, w)] + MapSanitize(cm, ws)
  {
    assert ([w] + ws)[1..] == ws;
  }

  // ---------------------------------------------------------------------
  // Untyped JSON and its validation
  // ---------------------------------------------------------------------

  /** A value produced by `JSON.parse`. */
  datatype Json =
    | JNull
    | JBool(b: bool)
    | JNumber(n: real)
    | JString(str: string)
    | JArray(items: seq<Json>)
    | JObject(fields: map<string, Json>)

  /** `!v`: JavaScript falsiness of a parsed value. */
  predicate IsFalsy(v: Json) {
    || v.JNull?
    || (v.JBool? && !v.b)
    || (v.JNumber? && v.n == 0.0)
    || (v.JString? && |v.str| == 0)
  }

  /** `typeof v === "object"`: null, arrays and plain objects. */
  predicate IsObjectType(v: Json) {
    v.JNull? || v.JArray? || v.JObject?
  }

  /** `(v as { key?: unknown }).key`: parsed arrays carry no named members. */
  function Member(v: Json, key: string): Option<Json> {
    if v.JObject? && key in v.fields then Some(v.fields[key]) else None
  }

  datatype Sentence = Sentence(id: string, text: string, audioUrl: Option<string>)

  /** No two sentences share an id. */
  predicate DistinctIds(ss: seq<Sentence>) {
    forall i, j :: 0 <= i < j < |ss| ==> ss[i].id != ss[j].id
  }

  function IdSet(ss: seq<Sentence>): set<string> {
    set k | 0 <= k < |ss| :: ss[k].id
  }

  /** The `makeId` oracle: given the ids in use, it returns one outside them. */
  type IdOracle = set<string> -> string

  ghost predicate IsFreshOracle(makeId: IdOracle) {
    forall used :: makeId(used) !in used
  }

  /** The `text` of a payload entry, when the entry is kept: a truthy value
      of object type whose `text` member is a string. */
  function EntryText(e: Json): Option<string> {
    if IsFalsy(e) || !IsObjectType(e) then None
    else match Member(e, "text")
      case Some(JString(t)) => Some(t)
      case _ => None
  }

  /** The trimmed `id` of a payload entry, when it is a string that does not
      trim to empty. */
  function EntryId(e: Json): Option<string> {
    match Member(e, "id")
      case Some(JString(i)) => if |Trim(i)| > 0 then Some(Trim(i)) else None
      case _ => None
  }

  /** The id a kept entry receives: its own trimmed id unless that is absent
      or already used, otherwise a fresh one (the retry loop ends after one
      call because the oracle's answer is never in use). */
  function ChooseId(e: Json, seen: set<string>, makeId: IdOracle): string {
    match EntryId(e)
      case Some(i) => if i in seen then makeId(seen) else i
      case None => makeId(seen)
  }

  /** The entries `sanitizeSentencesPayload` keeps, in order. */
  function KeptEntries(entries: seq<Json>): (r: seq<Json>)
    ensures |r| <= |entries|
    ensures forall k :: 0 <= k < |r| ==> EntryText(r[k]).Some?
  {
    if |entries| == 0 then []
    else (if EntryText(entries[0]).Some? then [entries[0]] else []) + KeptEntries(entries[1..])
  }

  /** Every entry with a string `text` is kept and every other is dropped,
      in the payload's order. */
  lemma {:induction false} KeptEntriesKeeps(entries: seq<Json>)
    ensures forall e :: e in KeptEntries(entries) <==> e in entries && EntryText(e).Some?
    ensures IsSubsequence(KeptEntries(entries), entries)
    decreases |entries|
  {
    if |entries| > 0 {
      KeptEntriesKeeps(entries[1..]);
      var rest := KeptEntries(entries[1..]);
      assert entries == [entries[0]] + entries[1..];
      if EntryText(entries[0]).Some? {
        assert KeptEntries(entries) == [entries[0]] + rest;
        assert ([entries[0]] + rest)[1..] == rest;
      } else {
        assert KeptEntries(entries) == rest;
        SubsequenceSkip(rest, entries[0], entries[1..]);
      }
    }
  }

  /** The loop of `sanitizeSentencesPayload`, with `seen` the ids used so far. */
  function SanitizeEntries(entries: seq<Json>, seen: set<string>, makeId: IdOracle): (r: seq<Sentence>)
    ensures |r| == |KeptEntries(entries)|
    decreases |entries|
  {
    if |entries| == 0 then []
    else match EntryText(entries[0])
      case None => SanitizeEntries(entries[1..], seen, makeId)
      case Some(t) =>
        var id := ChooseId(entries[0], seen, makeId);
        [Sentence(id, t, None)] + SanitizeEntries(entries[1..], seen + {id}, makeId)
  }

  /** Sentence `k` carries the text of kept entry `k` and no audio link. */
  predicate TextsKept(r: seq<Sentence>, kept: seq<Json>) {
    |r| == |kept| &&
    forall k :: 0 <= k < |r| ==> EntryText(kept[k]) == Some(r[k].text) && r[k].audioUrl.None?
  }

  lemma TextsKeptCons(x: Sentence, r: seq<Sentence>, e: Json, kept: seq<Json>)
    requires TextsKept(r, kept)
    requires EntryText(e) == Some(x.text) && x.audioUrl.None?
    ensures TextsKept([x] + r, [e] + kept)
  {
    assert forall k :: 1 <= k < |r| + 1 ==> ([x] + r)[k] == r[k - 1] && ([e] + kept)[k] == kept[k - 1];
  }

  /** Every kept entry keeps its text and loses any audio link. */
  lemma {:induction false} SanitizeEntriesTexts(entries: seq<Json>, seen: set<string>, makeId: IdOracle)
    ensures TextsKept(SanitizeEntries(entries, seen, makeId), KeptEntries(entries))
    decreases |entries|
  {
    if |entries| > 0 {
      match EntryText(entries[0])
      case None =>
        SanitizeEntriesTexts(entries[1..], seen, makeId);
        assert KeptEntries(entries) == KeptEntries(entries[1..]);
      case Some(t) =>
        SanitizeEntriesTexts(entries[1..], seen + {ChooseId(entries[0], seen, makeId)}, makeId);
        TextsKeptCons(Sentence(ChooseId(entries[0], seen, makeId), t, None),
                      SanitizeEntries(entries[1..], seen + {ChooseId(entries[0], seen, makeId)}, makeId),
                      entries[0], KeptEntries(entries[1..]));
    }
  }

  /** Each kept entry's id is chosen from the ids issued before it. */
  lemma {:induction false} SanitizeEntriesIdChoice(entries: seq<Json>, seen: set<string>, makeId: IdOracle)
    ensures IdsChosen(entries, seen, makeId)
    decreases |entries|
  {
    if |entries| > 0 {
      if EntryText(entries[0]).None? {
        SanitizeEntriesIdChoice(entries[1..], seen, makeId);
      } else {
        SanitizeEntriesIdChoice(entries[1..], seen + {ChooseId(entries[0], seen, makeId)}, makeId);
        IdChoiceStep(entries, seen, makeId);
      }
    }
  }

  /** Entry `k` of the result took the id `ChooseId` gives for the `k`-th
      kept entry, given the ids issued before it. */
  ghost predicate IdsChosen(entries: seq<Json>, seen: set<string>, makeId: IdOracle) {
    var r := SanitizeEntries(entries, seen, makeId);
    forall k :: 0 <= k < |r| ==>
      r[k].id == ChooseId(KeptEntries(entries)[k], seen + IdSet(r[..k]), makeId)
  }

  lemma IdChoiceStep(entries: seq<Json>, seen: set<string>, makeId: IdOracle)
    requires |entries| > 0 && EntryText(entries[0]).Some?
    requires IdsChosen(entries[1..], seen + {ChooseId(entries[0], seen, makeId)}, makeId)
    ensures IdsChosen(entries, seen, makeId)
  {
    var id := ChooseId(entries[0], seen, makeId);
    var rest := SanitizeEntries(entries[1..], seen + {id}, makeId);
    var r := SanitizeEntries(entries, seen, makeId);
    var K := KeptEntries(entries);
    assert K == [entries[0]] + KeptEntries(entries[1..]);
    assert r == [r[0]] + rest;
    forall k | 0 <= k < |r|
      ensures r[k].id == ChooseId(K[k], seen + IdSet(r[..k]), makeId)
    {
      if k == 0 {
        assert IdSet(r[..0]) == {};
        assert seen + IdSet(r[..0]) == seen;
        assert K[0] == entries[0] && r[0].id == id;
      } else {
        IdChoiceLater(entries, seen, makeId, k);
      }
    }
  }

  /** The step of `IdChoiceStep` for an entry after the first. */
  lemma IdChoiceLater(entries: seq<Json>, seen: set<string>, makeId: IdOracle, k: nat)
    requires |entries| > 0 && EntryText(entries[0]).Some?
    requires IdsChosen(entries[1..], seen + {ChooseId(entries[0], seen, makeId)}, makeId)
    requires 0 < k < |SanitizeEntries(entries, seen, makeId)|
    ensures var r := SanitizeEntries(entries, seen, makeId);
            r[k].id == ChooseId(KeptEntries(entries)[k], seen + IdSet(r[..k]), makeId)
  {
    var id := ChooseId(entries[0], seen, makeId);
    var rest := SanitizeEntries(entries[1..], seen + {id}, makeId);
    var r := SanitizeEntries(entries, seen, makeId);
    var K := KeptEntries(entries);
    assert K == [entries[0]] + KeptEntries(entries[1..]);
    assert r == [r[0]] + rest;
    assert r[k] == rest[k - 1];
    assert rest[k - 1].id == ChooseId(KeptEntries(entries[1..])[k - 1], (seen + {id}) + IdSet(rest[..k - 1]), makeId);
    assert r[..k] == [r[0]] + rest[..k - 1];
    IdSetCons(r[0], rest[..k - 1]);
    assert seen + IdSet(r[..k]) == (seen + {id}) + IdSet(rest[..k - 1]);
    assert K[k] == KeptEntries(entries[1..])[k - 1];
  }

  /** With a fresh-id oracle the issued ids are pairwise distinct and avoid
      every id already in use. */
  lemma {:induction false} SanitizeEntriesDistinct(entries: seq<Json>, seen: set<string>, makeId: IdOracle)
    requires IsFreshOracle(makeId)
    ensures var r := SanitizeEntries(entries, seen, makeId);
            (forall k :: 0 <= k < |r| ==> r[k].id !in seen) && DistinctIds(r)
    decreases |entries|
  {
    if |entries| > 0 {
      if EntryText(entries[0]).None? {
        SanitizeEntriesDistinct(entries[1..], seen, makeId);
      } else {
        var id := ChooseId(entries[0], seen, makeId);
        assert id !in seen;
        var rest := SanitizeEntries(entries[1..], seen + {id}, makeId);
        var r := SanitizeEntries(entries, seen, makeId);
        assert r == [r[0]] + rest;
        SanitizeEntriesDistinct(entries[1..], seen + {id}, makeId);
        forall i, j | 0 <= i < j < |r| ensures r[i].id != r[j].id {
          if i > 0 { assert rest[i - 1].id != rest[j - 1].id; }
          else { assert rest[j - 1].id !in seen + {id}; }
        }
      }
    }
  }

  lemma IdSetCons(x: Sentence, ss: seq<Sentence>)
    ensures IdSet([x] + ss) == {x.id} + IdSet(ss)
  {
    var l := [x] + ss;
    forall i | i in IdSet(l) ensures i in {x.id} + IdSet(ss) {
      var k :| 0 <= k < |l| && l[k].id == i;
      if k > 0 { assert ss[k - 1].id == i; }
    }
    forall i | i in IdSet(ss) ensures i in IdSet(l) {
      var k :| 0 <= k < |ss| && ss[k].id == i;
      assert l[k + 1].id == i;
    }
    assert l[0].id == x.id;
  }

  /** `sanitizeSentencesPayload`. */
  function SanitizeSentencesPayload(value: Json, makeId: IdOracle): (r: Option<seq<Sentence>>)
    requires IsFreshOracle(makeId)
    ensures r.None? <==> !value.JArray?
    ensures r.Some? ==> |r.value| <= |value.items| && DistinctIds(r.value)
    ensures r.Some? ==> |r.value| == |KeptEntries(value.items)|
  {
    if value.JArray? then
      SanitizeEntriesDistinct(value.items, {}, makeId);
      Some(SanitizeEntries(value.items, {}, makeId))
    else None
  }

  /** The payload `handleExport` serialises: `{ id, text }` per sentence. */
  function ExportPayload(list: seq<Sentence>): (r: Json)
    ensures r.JArray? && |r.items| == |list|
  {
    JArray(ExportEntries(list))
  }

  function ExportEntries(list: seq<Sentence>): (r: seq<Json>)
    ensures |r| == |list|
  {
    if |list| == 0 then []
    else [JObject(map["id" := JString(list[0].id), "text" := JString(list[0].text)])] + ExportEntries(list[1..])
  }

  function WithoutAudio(list: seq<Sentence>): (r: seq<Sentence>)
    ensures |r| == |list|
  {
    if |list| == 0 then [] else [list[0].(audioUrl := None)] + WithoutAudio(list[1..])
  }

  /** An id that survives export and import unchanged. */
  predicate IsStableId(id: string) {
    |id| > 0 && Trim(id) == id
  }

  /** Every id of the list survives export and import unchanged. */
  predicate StableIds(list: seq<Sentence>) {
    forall k :: 0 <= k < |list| ==> IsStableId(list[k].id)
  }

  /** Importing an exported list gives the list back (without audio links)
      when its ids are distinct and stable under trimming. */
  lemma ExportImportRoundTrip(list: seq<Sentence>, makeId: IdOracle)
    requires IsFreshOracle(makeId)
    requires DistinctIds(list)
    requires StableIds(list)
    ensures SanitizeSentencesPayload(ExportPayload(list), makeId) == Some(WithoutAudio(list))
  {
    var v := ExportPayload(list);
    assert v == JArray(ExportEntries(list));
    assert SanitizeSentencesPayload(v, makeId) == Some(SanitizeEntries(ExportEntries(list), {}, makeId));
    ImportExportedEntries(list, {}, makeId);
  }

  lemma {:induction false} ImportExportedEntries(list: seq<Sentence>, seen: set<string>, makeId: IdOracle)
    requires DistinctIds(list)
    requires forall k :: 0 <= k < |list| ==> IsStableId(list[k].id) && list[k].id !in seen
    ensures SanitizeEntries(ExportEntries(list), seen, makeId) == WithoutAudio(list)
    decreases |list|
  {
    if |list| > 0 {
      var x := list[0];
      ImportExportedHead(list, seen, makeId);
      DistinctTail(list);
      ImportExportedEntries(list[1..], seen + {x.id}, makeId);
    }
  }

  /** One step of the round trip: the first exported entry comes back as
      the first sentence, and the rest is read with its id marked as seen. */
  lemma ImportExportedHead(list: seq<Sentence>, seen: set<string>, makeId: IdOracle)
    requires |list| > 0 && IsStableId(list[0].id) && list[0].id !in seen
    ensures SanitizeEntries(ExportEntries(list), seen, makeId)
            == [list[0].(audioUrl := None)] + SanitizeEntries(ExportEntries(list[1..]), seen + {list[0].id}, makeId)
  {
    var x := list[0];
    var e := JObject(map["id" := JString(x.id), "text" := JString(x.text)]);
    var es := ExportEntries(list);
    assert es == [e] + ExportEntries(list[1..]);
    assert es[1..] == ExportEntries(list[1..]);
    ExportedEntryReads(x, seen, makeId);
  }

  lemma ExportedEntryReads(x: Sentence, seen: set<string>, makeId: IdOracle)
    requires IsStableId(x.id) && x.id !in seen
    ensures var e := JObject(map["id" := JString(x.id), "text" := JString(x.text)]);
            EntryText(e) == Some(x.text) && ChooseId(e, seen, makeId) == x.id
  {
    var e := JObject(map["id" := JString(x.id), "text" := JString(x.text)]);
    assert Member(e, "text") == Some(JString(x.text));
    assert Member(e, "id") == Some(JString(x.id));
    assert EntryId(e) == Some(x.id);
  }

  /** The tail of a list with distinct ids has distinct ids, none of them
      the head's. */
  lemma DistinctTail(list: seq<Sentence>)
    requires |list| > 0 && DistinctIds(list)
    ensures DistinctIds(list[1..])
    ensures forall k :: 0 <= k < |list[1..]| ==> list[1..][k].id != list[0].id
  {
    forall k | 0 <= k < |list[1..]| ensures list[1..][k].id != list[0].id {
      assert list[1..][k] == list[k + 1];
    }
    forall i, j | 0 <= i < j < |list[1..]| ensures list[1..][i].id != list[1..][j].id {
      assert list[1..][i] == list[i + 1] && list[1..][j] == list[j + 1];
    }
  }

  // ---------------------------------------------------------------------
  // Preferences
  // ---------------------------------------------------------------------

  datatype Preferences = Preferences(completionSound: bool, keypressSound: bool)

  const DefaultPreferences: Preferences := Preferences(true, true)

  /** The member `key` of `v` is a stored boolean. */
  predicate HasBoolMember(v: Json, key: string) {
    Member(v, key).Some? && Member(v, key).value.JBool?
  }

  function BoolMemberOr(v: Json, key: string, default: bool): bool {
    if HasBoolMember(v, key) then Member(v, key).value.b else default
  }

  /** `sanitizePreferences`. */
  function SanitizePreferences(v: Json): (r: Option<Preferences>)
    ensures r.None? <==> !(v.JArray? || v.JObject?)
    ensures r.Some? && HasBoolMember(v, "completionSound") ==>
              r.value.completionSound == v.fields["completionSound"].b
    ensures r.Some? && !HasBoolMember(v, "completionSound") ==> r.value.completionSound
    ensures r.Some? && HasBoolMember(v, "keypressSound") ==>
              r.value.keypressSound == v.fields["keypressSound"].b
    ensures r.Some? && !HasBoolMember(v, "keypressSound") ==> r.value.keypressSound
  {
    if IsFalsy(v) || !IsObjectType(v) then None
    else Some(Preferences(
      BoolMemberOr(v, "completionSound", DefaultPreferences.completionSound),
      BoolMemberOr(v, "keypressSound", DefaultPreferences.keypressSound)))
  }

  /** The stored form `JSON.stringify(preferences)`, read back by `JSON.parse`. */
  function PreferencesJson(p: Preferences): Json {
    JObject(map["completionSound" := JBool(p.completionSound), "keypressSound" := JBool(p.keypressSound)])
  }

  /** Stored preferences are read back unchanged. */
  lemma PreferencesRoundTrip(p: Preferences)
    ensures SanitizePreferences(PreferencesJson(p)) == Some(p)
  {
    var v := PreferencesJson(p);
    assert Member(v, "completionSound") == Some(JBool(p.completionSound));
    assert Member(v, "keypressSound") == Some(JBool(p.keypressSound));
  }
}
