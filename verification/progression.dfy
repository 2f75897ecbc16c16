/** The dictation page's progression: the current index into the sentence
    list, the typed input, the completion check that advances to the next
    sentence, Skip, the clamp applied when the list changes length, and the
    list of running celebrations. */
module Progression {
  import opened Common
  import opened JsText
  import opened SentenceUtils
  import opened WordAligner

  datatype Page = Page(sentences: seq<Sentence>, index: nat, input: string, celebrations: seq<string>)

  /** The index names a sentence, or is 0 for an empty list. */
  predicate IndexValid(p: Page) {
    if |p.sentences| == 0 then p.index == 0 else p.index < |p.sentences|
  }

  /** `sentences[currentIndex]`, `undefined` when out of range. */
  function CurrentSentence(p: Page): (r: Option<Sentence>)
    ensures r.Some? <==> p.index < |p.sentences|
    ensures r.Some? ==> r.value in p.sentences
    ensures r.Some? ==> r.value == p.sentences[p.index]
  {
    if p.index < |p.sentences| then Some(p.sentences[p.index]) else None
  }

  function CurrentId(p: Page): Option<string> {
    match CurrentSentence(p)
      case Some(s) => Some(s.id)
      case None => None
  }

  /** The updater shared by the completion path and Skip: the next index,
      wrapping to 0 past the end. */
  function NextIndex(previous: nat, len: nat): (r: nat)
    ensures len == 0 ==> r == 0
    ensures len > 0 ==> r < len
    ensures previous < len ==> r == (previous + 1) % len
  {
    if len == 0 then 0
    else
      var nextIndex := previous + 1;
      if nextIndex < len then nextIndex else 0
  }

  /** Advancing `k <= len` times from a valid index moves `k` places round
      the list. */
  lemma {:induction false} NextIndexCycles(start: nat, len: nat, k: nat)
    requires start < len && k <= len
    ensures Iterate(start, len, k) == if start + k < len then start + k else start + k - len
    decreases k
  {
    if k > 0 {
      NextIndexCycles(start, len, k - 1);
    }
  }

  /** Repeated Skips visit every sentence and come back after `len` steps. */
  lemma SkipVisitsAll(start: nat, len: nat)
    requires start < len
    ensures Iterate(start, len, len) == start
    ensures forall t :: 0 <= t < len ==> t in Visited(start, len)
  {
    NextIndexCycles(start, len, len);
    forall t | 0 <= t < len
      ensures t in Visited(start, len)
    {
      var k := if start <= t then t - start else t + len - start;
      NextIndexCycles(start, len, k);
    }
  }

  /** The indices reached in fewer than `len` advances. */
  function Visited(start: nat, len: nat): set<nat>
    requires start < len
  {
    set k | 0 <= k < len :: Iterate(start, len, k)
  }

  /** `k` successive advances. */
  function Iterate(start: nat, len: nat, k: nat): (r: nat)
    requires start < len
    ensures r < len
    decreases k
  {
    if k == 0 then start else NextIndex(Iterate(start, len, k - 1), len)
  }

  /** The effect on `sentences.length`: clamp the index into the list. */
  function ClampIndex(previous: nat, len: nat): (r: nat)
    ensures len == 0 ==> r == 0
    ensures len > 0 ==> r < len
    ensures len > 0 ==> forall k :: 0 <= k < len ==> Distance(r, previous) <= Distance(k, previous)
  {
    if len == 0 then 0
    else if previous >= len then len - 1
    else previous
  }

  function Distance(a: int, b: int): nat {
    if a <= b then b - a else a - b
  }

  /** A valid index is left alone by the clamp, and clamping twice is
      clamping once. */
  lemma ClampKeepsValid(previous: nat, len: nat)
    ensures previous < len ==> ClampIndex(previous, len) == previous
    ensures ClampIndex(ClampIndex(previous, len), len) == ClampIndex(previous, len)
  {
  }

  /** The effect on the current sentence's id: a different sentence clears
      the input. */
  function SettleInput(before: Page, after: Page): (p: Page)
    ensures p.(input := after.input) == after
    ensures CurrentId(before) != CurrentId(after) ==> p.input == ""
    ensures CurrentId(before) == CurrentId(after) ==> p.input == after.input
  {
    if CurrentId(before) != CurrentId(after) then after.(input := "") else after
  }

  /** `setSentences(list)` and the renders that follow it. The first render
      shows the new list at the old index, and the id effect runs against
      it; when the length changed, the length effect then clamps the index
      and a second render runs the id effect again. The input survives only
      if neither render showed a different sentence id. */
  function SetSentences(p: Page, list: seq<Sentence>): (r: Page)
    ensures r.sentences == list && r.celebrations == p.celebrations
    ensures |list| != |p.sentences| ==> r.index == ClampIndex(p.index, |list|)
    ensures |list| == |p.sentences| ==> r.index == p.index
    ensures IndexValid(p) || |list| != |p.sentences| ==> IndexValid(r)
    ensures CurrentId(r) != CurrentId(p) ==> r.input == ""
    ensures r.input == (if CurrentId(p) == CurrentId(p.(sentences := list)) == CurrentId(r) then p.input else "")
  {
    var mid := SettleInput(p, p.(sentences := list));
    if |list| != |p.sentences| then SettleInput(mid, mid.(index := ClampIndex(p.index, |list|))) else mid
  }

  /** `makeId()` for a celebration: a fresh identifier, supplied by the caller. */
  function TriggerCelebration(celebrations: seq<string>, id: string): (r: seq<string>)
    ensures |r| == |celebrations| + 1 && r[..|celebrations|] == celebrations && r[|celebrations|] == id
  {
    celebrations + [id]
  }

  /** `handleCelebrationComplete`: drop every occurrence of `id`. */
  function CompleteCelebration(celebrations: seq<string>, id: string): (r: seq<string>)
    ensures |r| <= |celebrations|
    ensures forall x :: x in r <==> x in celebrations && x != id
    ensures IsSubsequence(r, celebrations)
  {
    if |celebrations| == 0 then []
    else if celebrations[0] == id then
      SubsequenceSkip(CompleteCelebration(celebrations[1..], id), celebrations[0], celebrations[1..]);
      CompleteCelebration(celebrations[1..], id)
    else
      var rest := CompleteCelebration(celebrations[1..], id);
      assert celebrations == [celebrations[0]] + celebrations[1..];
      assert ([celebrations[0]] + rest)[1..] == rest;
      [celebrations[0]] + rest
  }

  /** A celebration that finishes is removed, leaving the others as they
      were. */
  lemma CelebrationRoundTrip(celebrations: seq<string>, id: string)
    requires id !in celebrations
    ensures CompleteCelebration(TriggerCelebration(celebrations, id), id) == celebrations
  {
    CompleteWithout(celebrations, id);
    CompleteAppend(celebrations, [id], id);
  }

  lemma {:induction false} CompleteWithout(celebrations: seq<string>, id: string)
    requires id !in celebrations
    ensures CompleteCelebration(celebrations, id) == celebrations
    decreases |celebrations|
  {
    if |celebrations| > 0 {
      CompleteWithout(celebrations[1..], id);
      assert [celebrations[0]] + celebrations[1..] == celebrations;
    }
  }

  lemma {:induction false} CompleteAppend(a: seq<string>, b: seq<string>, id: string)
    ensures CompleteCelebration(a + b, id) == CompleteCelebration(a, id) + CompleteCelebration(b, id)
    decreases |a|
  {
    if |a| == 0 {
      assert a + b == b;
    } else {
      assert (a + b)[0] == a[0] && (a + b)[1..] == a[1..] + b;
      CompleteAppend(a[1..], b, id);
    }
  }

  // ---------------------------------------------------------------------
  // Completion
  // ---------------------------------------------------------------------

  /** The completion condition of `handleInputChange`. */
  predicate Completes(cm: CharModel, text: string, value: string) {
    var expectedNormalized := NormalizeForComparison(cm, text);
    |expectedNormalized| > 0 && NormalizeForComparison(cm, value) == expectedNormalized
  }

  /** `handleInputChange(value)`: store the input; when the current sentence
      is completed, celebrate (with `celebrationId`), clear the input and move
      to the next sentence. The flag reports whether the completion sound and
      celebration fire. */
  function HandleInputChange(cm: CharModel, p: Page, value: string, celebrationId: string): (r: (Page, bool))
    ensures var (q, completed) := r;
            && q.sentences == p.sentences
            && (completed <==> CurrentSentence(p).Some? && Completes(cm, CurrentSentence(p).value.text, value))
            && (!completed ==> q == p.(input := value))
            && (completed ==> q.input == "" && q.index == NextIndex(p.index, |p.sentences|)
                              && q.celebrations == p.celebrations + [celebrationId])
  {
    var typed := p.(input := value);
    match CurrentSentence(p)
      case None => (typed, false)
      case Some(current) =>
        if Completes(cm, current.text, value) then
          var advanced := typed.(input := "", index := NextIndex(p.index, |p.sentences|),
                                 celebrations := TriggerCelebration(p.celebrations, celebrationId));
          (SettleInput(p, advanced), true)
        else (typed, false)
  }

  /** The Skip button: the same advance, without clearing the input unless
      the current sentence changes, and without celebrating. */
  function Skip(p: Page): (r: Page)
    ensures r.sentences == p.sentences && r.celebrations == p.celebrations
    ensures r.index == NextIndex(p.index, |p.sentences|)
    ensures CurrentId(r) == CurrentId(p) ==> r.input == p.input
    ensures CurrentId(r) != CurrentId(p) ==> r.input == ""
  {
    SettleInput(p, p.(index := NextIndex(p.index, |p.sentences|)))
  }

  /** Every page operation keeps the index valid. */
  lemma OperationsKeepIndexValid(cm: CharModel, p: Page, value: string, id: string, list: seq<Sentence>)
    requires IndexValid(p)
    ensures IndexValid(HandleInputChange(cm, p, value, id).0)
    ensures IndexValid(Skip(p))
    ensures IndexValid(SetSentences(p, list))
  {
  }

  lemma JoinNonEmpty(ws: seq<string>)
    requires |ws| > 0 && |ws[0]| > 0
    ensures |Join(ws)| > 0
  {
  }

  /** The whole-string completion test and the word-by-word alignment agree:
      the sentence is completed exactly when it has a comparable word, every
      word is `correct` and there is no mismatch. */
  lemma CompletionIffCleanAlignment(cm: CharModel, current: Sentence, value: string)
    requires ValidCharModel(cm)
    ensures var a := WordStatesFor(cm, Some(current), value);
            Completes(cm, current.text, value) <==>
              |ComparableWords(cm, Tokens(current.text))| > 0 && AllCorrect(a.wordStates) && a.mismatch.None?
  {
    var A := ComparableWords(cm, Tokens(current.text));
    var B := ComparableWords(cm, Tokens(value));
    NormalizeForComparisonSpec(cm, current.text);
    NormalizeForComparisonSpec(cm, value);
    AlignCharacterisation(cm, Tokens(current.text), Tokens(value));
    if |A| > 0 {
      JoinNonEmpty(A);
    }
  }

  /** In particular a completing input aligns with no error and no mismatch. */
  lemma CompletionMeansNoError(cm: CharModel, current: Sentence, value: string)
    requires ValidCharModel(cm)
    requires Completes(cm, current.text, value)
    ensures var a := WordStatesFor(cm, Some(current), value);
            NoError(a.wordStates) && a.mismatch.None?
  {
    CompletionIffCleanAlignment(cm, current, value);
    StatusesIndexed(WordStatesFor(cm, Some(current), value).wordStates);
  }
}
