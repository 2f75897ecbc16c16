/** The word aligner of the dictation page: the expected sentence and the
    typed input are split into whitespace tokens, compared word by word on
    their sanitised forms with a cursor into the typed tokens, and every
    expected word receives a status; at most one mismatch is reported. */
module WordAligner {
  import opened Common
  import opened JsText
  import opened SentenceUtils

  datatype Status = Correct | Error | Upcoming

  datatype WordState = WordState(word: string, status: Status)

  /** A substitution has a non-empty `expected`; an extra trailing typed word
      is reported with `expected == ""`. */
  datatype Mismatch = Mismatch(expected: string, typed: string)

  datatype Alignment = Alignment(wordStates: seq<WordState>, mismatch: Option<Mismatch>)

  /** The state of the `targetWords.map` walk once it has visited every word:
      the statuses, the typed cursor and the substitution found, if any. */
  datatype Walked = Walked(states: seq<WordState>, cursor: nat, mismatch: Option<Mismatch>)

  /** No state is `error` (stated position by position in `StatusesIndexed`). */
  predicate NoError(states: seq<WordState>) {
    |states| == 0 || (states[0].status != Error && NoError(states[1..]))
  }

  /** Every state is `correct`. */
  predicate AllCorrect(states: seq<WordState>) {
    |states| == 0 || (states[0].status == Correct && AllCorrect(states[1..]))
  }

  predicate IsBlank(cm: CharModel, w: string) {
    |SanitizeWord(cm, w)| == 0
  }

  /** The inner `while`: advance the typed cursor past tokens whose sanitised
      form is empty. */
  function SkipBlank(cm: CharModel, typed: seq<string>, i: nat): (j: nat)
    requires i <= |typed|
    ensures i <= j <= |typed|
    ensures forall k :: i <= k < j ==> IsBlank(cm, typed[k])
    ensures j < |typed| ==> !IsBlank(cm, typed[j])
    decreases |typed| - i
  {
    if i == |typed| || !IsBlank(cm, typed[i]) then i else SkipBlank(cm, typed, i + 1)
  }

  function AllUpcoming(targets: seq<string>): (r: seq<WordState>)
    ensures |r| == |targets|
  {
    if |targets| == 0 then [] else [WordState(targets[0], Upcoming)] + AllUpcoming(targets[1..])
  }

  function Cons(s: WordState, w: Walked): Walked {
    w.(states := [s] + w.states)
  }

  /** The `targetWords.map` callback applied to every expected word, starting
      with the typed cursor at `cursor` and no mismatch found yet. */
  function Walk(cm: CharModel, targets: seq<string>, typed: seq<string>, cursor: nat): (w: Walked)
    requires cursor <= |typed|
    ensures |w.states| == |targets|
    ensures cursor <= w.cursor <= |typed|
    decreases |targets|
  {
    if |targets| == 0 then Walked([], cursor, None)
    else
      var word := targets[0];
      var cleanTarget := SanitizeWord(cm, word);
      if |cleanTarget| == 0 then
        Cons(WordState(word, Correct), Walk(cm, targets[1..], typed, cursor))
      else
        var j := SkipBlank(cm, typed, cursor);
        if j == |typed| then
          Cons(WordState(word, Upcoming), Walk(cm, targets[1..], typed, j))
        else if cleanTarget == SanitizeWord(cm, typed[j]) then
          Cons(WordState(word, Correct), Walk(cm, targets[1..], typed, j + 1))
        else
          Walked([WordState(word, Error)] + AllUpcoming(targets[1..]), j + 1,
                 Some(Mismatch(word, typed[j])))
  }

  /** The trailing `while`: the first leftover typed word whose sanitised form
      is not empty is reported as an extra word. */
  function Trailing(cm: CharModel, typed: seq<string>, cursor: nat): (m: Option<Mismatch>)
    requires cursor <= |typed|
    ensures m.None? <==> forall k :: cursor <= k < |typed| ==> IsBlank(cm, typed[k])
    ensures m.Some? ==> m.value.expected == "" && !IsBlank(cm, m.value.typed)
    ensures m.Some? ==> exists j :: cursor <= j < |typed| && typed[j] == m.value.typed &&
                          forall k :: cursor <= k < j ==> IsBlank(cm, typed[k])
  {
    var j := SkipBlank(cm, typed, cursor);
    if j < |typed| then Some(Mismatch("", typed[j])) else None
  }

  /** The aligner on token lists. */
  function Align(cm: CharModel, targets: seq<string>, typed: seq<string>): (a: Alignment)
    ensures |a.wordStates| == |targets|
  {
    var w := Walk(cm, targets, typed, 0);
    Alignment(w.states, if w.mismatch.Some? then w.mismatch else Trailing(cm, typed, w.cursor))
  }

  /** `inputValue.trim() ? inputValue.trim().split(/\s+/).filter(Boolean) : []`:
      the typed tokens, the same as the tokens of the untrimmed input. */
  function TypedWords(input: string): (r: seq<string>)
    ensures r == Tokens(input)
  {
    TokensTrim(input);
    if |Trim(input)| > 0 then Tokens(Trim(input)) else []
  }

  /** The `useMemo` block: the statuses of the current sentence's words and
      the mismatch to display; no sentence gives no states and no mismatch. */
  function WordStatesFor(cm: CharModel, current: Option<Sentence>, input: string): (a: Alignment)
    ensures current.None? ==> a == Alignment([], None)
    ensures current.Some? ==> |a.wordStates| == |Tokens(current.value.text)|
  {
    if current.None? then Alignment([], None)
    else Align(cm, Tokens(current.value.text), TypedWords(input))
  }

  // ---------------------------------------------------------------------
  // The loop as written
  // ---------------------------------------------------------------------

  /** `prefix` followed by a walk of the remaining words. */
  function After(prefix: seq<WordState>, w: Walked): Walked {
    w.(states := prefix + w.states)
  }

  lemma AfterCons(prefix: seq<WordState>, s: WordState, w: Walked)
    ensures After(prefix, Cons(s, w)) == After(prefix + [s], w)
  {
    assert prefix + ([s] + w.states) == (prefix + [s]) + w.states;
  }

  /** One step of the walk, seen from position `n` of the expected words. */
  lemma WalkFrom(cm: CharModel, targets: seq<string>, n: nat, typed: seq<string>, cursor: nat)
    requires n < |targets| && cursor <= |typed|
    ensures var word := targets[n];
            var cleanTarget := SanitizeWord(cm, word);
            var j := SkipBlank(cm, typed, cursor);
            Walk(cm, targets[n..], typed, cursor) ==
              if |cleanTarget| == 0 then
                Cons(WordState(word, Correct), Walk(cm, targets[n + 1..], typed, cursor))
              else if j == |typed| then
                Cons(WordState(word, Upcoming), Walk(cm, targets[n + 1..], typed, j))
              else if cleanTarget == SanitizeWord(cm, typed[j]) then
                Cons(WordState(word, Correct), Walk(cm, targets[n + 1..], typed, j + 1))
              else
                Walked([WordState(word, Error)] + AllUpcoming(targets[n + 1..]), j + 1,
                       Some(Mismatch(word, typed[j])))
  {
    var rest := targets[n..];
    assert rest[0] == targets[n] && rest[1..] == targets[n + 1..];
  }

  /** The inner `while` as written. */
  method SkipBlankWords(cm: CharModel, typed: seq<string>, start: nat) returns (typedIndex: nat)
    requires start <= |typed|
    ensures typedIndex == SkipBlank(cm, typed, start)
  {
    typedIndex := start;
    while typedIndex < |typed| && |SanitizeWord(cm, typed[typedIndex])| == 0
      invariant typedIndex <= |typed|
      invariant SkipBlank(cm, typed, typedIndex) == SkipBlank(cm, typed, start)
      decreases |typed| - typedIndex
    {
      typedIndex := typedIndex + 1;
    }
  }

  /** One call of the `targetWords.map` callback before any mismatch: the
      state pushed, the cursor moved, and the substitution found, if any. */
  method WalkWord(cm: CharModel, targets: seq<string>, n: nat, typed: seq<string>,
                  states: seq<WordState>, typedIndex: nat)
    returns (states': seq<WordState>, typedIndex': nat, mismatch: Option<Mismatch>)
    requires n < |targets| && typedIndex <= |typed|
    ensures typedIndex' <= |typed|
    ensures mismatch.None? ==>
              After(states, Walk(cm, targets[n..], typed, typedIndex))
                == After(states', Walk(cm, targets[n + 1..], typed, typedIndex'))
    ensures mismatch.Some? ==>
              After(states, Walk(cm, targets[n..], typed, typedIndex))
                == Walked(states' + AllUpcoming(targets[n + 1..]), typedIndex', mismatch)
  {
    var word := targets[n];
    var cleanTarget := SanitizeWord(cm, word);
    mismatch := None;
    typedIndex' := typedIndex;
    if |cleanTarget| == 0 {
      WalkStepKept(cm, targets, n, typed, states, typedIndex, Correct, typedIndex);
      states' := states + [WordState(word, Correct)];
    } else {
      typedIndex' := SkipBlankWords(cm, typed, typedIndex);
      if typedIndex' == |typed| {
        WalkStepKept(cm, targets, n, typed, states, typedIndex, Upcoming, typedIndex');
        states' := states + [WordState(word, Upcoming)];
      } else if cleanTarget == SanitizeWord(cm, typed[typedIndex']) {
        WalkStepKept(cm, targets, n, typed, states, typedIndex, Correct, typedIndex' + 1);
        typedIndex' := typedIndex' + 1;
        states' := states + [WordState(word, Correct)];
      } else {
        WalkStepError(cm, targets, n, typed, states, typedIndex);
        mismatch := Some(Mismatch(word, typed[typedIndex']));
        typedIndex' := typedIndex' + 1;
        states' := states + [WordState(word, Error)];
      }
    }
  }

  /** A step that pushes `status` and moves the cursor to `next`, as the
      walk does for a blank expected word, for running out of typed words,
      and for a match. */
  lemma WalkStepKept(cm: CharModel, targets: seq<string>, n: nat, typed: seq<string>,
                     states: seq<WordState>, cursor: nat, status: Status, next: nat)
    requires n < |targets| && cursor <= |typed| && next <= |typed|
    requires IsBlank(cm, targets[n]) ==> status == Correct && next == cursor
    requires !IsBlank(cm, targets[n]) && SkipBlank(cm, typed, cursor) == |typed| ==>
               status == Upcoming && next == |typed|
    requires !IsBlank(cm, targets[n]) && SkipBlank(cm, typed, cursor) < |typed| ==>
               && SanitizeWord(cm, targets[n]) == SanitizeWord(cm, typed[SkipBlank(cm, typed, cursor)])
               && status == Correct && next == SkipBlank(cm, typed, cursor) + 1
    ensures After(states, Walk(cm, targets[n..], typed, cursor))
              == After(states + [WordState(targets[n], status)], Walk(cm, targets[n + 1..], typed, next))
  {
    WalkFrom(cm, targets, n, typed, cursor);
    AfterCons(states, WordState(targets[n], status), Walk(cm, targets[n + 1..], typed, next));
  }

  /** A substitution: the error state, then every remaining word upcoming. */
  lemma WalkStepError(cm: CharModel, targets: seq<string>, n: nat, typed: seq<string>,
                      states: seq<WordState>, cursor: nat)
    requires n < |targets| && cursor <= |typed|
    requires !IsBlank(cm, targets[n]) && SkipBlank(cm, typed, cursor) < |typed|
    requires SanitizeWord(cm, targets[n]) != SanitizeWord(cm, typed[SkipBlank(cm, typed, cursor)])
    ensures After(states, Walk(cm, targets[n..], typed, cursor))
              == Walked((states + [WordState(targets[n], Error)]) + AllUpcoming(targets[n + 1..]),
                        SkipBlank(cm, typed, cursor) + 1,
                        Some(Mismatch(targets[n], typed[SkipBlank(cm, typed, cursor)])))
  {
    WalkFrom(cm, targets, n, typed, cursor);
    assert states + ([WordState(targets[n], Error)] + AllUpcoming(targets[n + 1..]))
        == (states + [WordState(targets[n], Error)]) + AllUpcoming(targets[n + 1..]);
  }

  /** The `targetWords.map` loop with its mutable cursor and flag. */
  method WalkWords(cm: CharModel, targets: seq<string>, typed: seq<string>)
    returns (states: seq<WordState>, typedIndex: nat, mismatch: Option<Mismatch>)
    ensures Walked(states, typedIndex, mismatch) == Walk(cm, targets, typed, 0)
  {
    states := [];
    mismatch := None;
    var mismatchFound := false;
    typedIndex := 0;
    var n := 0;
    while n < |targets|
      invariant 0 <= n <= |targets|
      invariant typedIndex <= |typed|
      invariant mismatchFound <==> mismatch.Some?
      invariant !mismatchFound ==>
        Walk(cm, targets, typed, 0) == After(states, Walk(cm, targets[n..], typed, typedIndex))
      invariant mismatchFound ==>
        Walk(cm, targets, typed, 0) == Walked(states + AllUpcoming(targets[n..]), typedIndex, mismatch)
    {
      var word := targets[n];
      if mismatchFound {
        assert AllUpcoming(targets[n..]) == [WordState(word, Upcoming)] + AllUpcoming(targets[n + 1..]);
        assert states + AllUpcoming(targets[n..]) == (states + [WordState(word, Upcoming)]) + AllUpcoming(targets[n + 1..]);
        states := states + [WordState(word, Upcoming)];
      } else {
        states, typedIndex, mismatch := WalkWord(cm, targets, n, typed, states, typedIndex);
        mismatchFound := mismatch.Some?;
      }
      n := n + 1;
    }
    assert targets[n..] == [];
  }

  /** The whole block: the walk, then the search for an extra typed word when
      no substitution was found. */
  method AlignWords(cm: CharModel, targets: seq<string>, typed: seq<string>)
    returns (states: seq<WordState>, mismatch: Option<Mismatch>)
    ensures Alignment(states, mismatch) == Align(cm, targets, typed)
  {
    var typedIndex;
    states, typedIndex, mismatch := WalkWords(cm, targets, typed);
    if mismatch.None? {
      ghost var j := SkipBlank(cm, typed, typedIndex);
      while typedIndex < |typed|
        invariant typedIndex <= j
        invariant SkipBlank(cm, typed, typedIndex) == j
        decreases |typed| - typedIndex
      {
        var extraWord := typed[typedIndex];
        if |SanitizeWord(cm, extraWord)| > 0 {
          mismatch := Some(Mismatch("", extraWord));
          break;
        }
        typedIndex := typedIndex + 1;
      }
    }
  }

  // ---------------------------------------------------------------------
  // Shape of the result
  // ---------------------------------------------------------------------

  lemma StatusCons(s: WordState, xs: seq<WordState>)
    ensures NoError([s] + xs) <==> s.status != Error && NoError(xs)
    ensures AllCorrect([s] + xs) <==> s.status == Correct && AllCorrect(xs)
  {
    assert ([s] + xs)[1..] == xs;
  }

  /** The recursive status predicates, position by position. */
  lemma {:induction false} StatusesIndexed(states: seq<WordState>)
    ensures NoError(states) <==> forall i :: 0 <= i < |states| ==> states[i].status != Error
    ensures AllCorrect(states) <==> forall i :: 0 <= i < |states| ==> states[i].status == Correct
    decreases |states|
  {
    if |states| > 0 {
      StatusesIndexed(states[1..]);
      assert forall i :: 1 <= i < |states| ==> states[i] == states[1..][i - 1];
    }
  }

  /** The cursor the walk of the remaining words starts from when the first
      expected word is not a substitution. */
  function NextCursor(cm: CharModel, targets: seq<string>, typed: seq<string>, cursor: nat): (n: nat)
    requires |targets| > 0 && cursor <= |typed|
    ensures cursor <= n <= |typed|
  {
    if IsBlank(cm, targets[0]) then cursor
    else if SkipBlank(cm, typed, cursor) == |typed| then |typed|
    else SkipBlank(cm, typed, cursor) + 1
  }

  /** The first expected word meets a typed word with a different sanitised
      form. */
  predicate Substituted(cm: CharModel, targets: seq<string>, typed: seq<string>, cursor: nat)
    requires |targets| > 0 && cursor <= |typed|
  {
    && !IsBlank(cm, targets[0])
    && SkipBlank(cm, typed, cursor) < |typed|
    && SanitizeWord(cm, targets[0]) != SanitizeWord(cm, typed[SkipBlank(cm, typed, cursor)])
  }

  /** The first step of a walk: the first word's state, followed either by
      the walk of the other words from the next cursor or, after a
      substitution, by `upcoming` states. */
  lemma WalkHead(cm: CharModel, targets: seq<string>, typed: seq<string>, cursor: nat)
    requires |targets| > 0 && cursor <= |typed|
    ensures Walk(cm, targets, typed, cursor).states[0].word == targets[0]
    ensures Walk(cm, targets, typed, cursor).states[0].status ==
              if Substituted(cm, targets, typed, cursor) then Error
              else if !IsBlank(cm, targets[0]) && SkipBlank(cm, typed, cursor) == |typed| then Upcoming
              else Correct
    ensures !Substituted(cm, targets, typed, cursor) ==>
              Walk(cm, targets, typed, cursor)
                == Cons(Walk(cm, targets, typed, cursor).states[0],
                        Walk(cm, targets[1..], typed, NextCursor(cm, targets, typed, cursor)))
    ensures Substituted(cm, targets, typed, cursor) ==>
              Walk(cm, targets, typed, cursor)
                == Walked([WordState(targets[0], Error)] + AllUpcoming(targets[1..]), SkipBlank(cm, typed, cursor) + 1,
                          Some(Mismatch(targets[0], typed[SkipBlank(cm, typed, cursor)])))
  {
  }

  /** Each state carries the expected token at its position. */
  predicate WordsKept(states: seq<WordState>, targets: seq<string>) {
    |states| == |targets| && forall i :: 0 <= i < |targets| ==> states[i].word == targets[i]
  }

  lemma WordsKeptCons(s: WordState, xs: seq<WordState>, targets: seq<string>)
    requires |targets| > 0 && s.word == targets[0] && WordsKept(xs, targets[1..])
    ensures WordsKept([s] + xs, targets)
  {
    assert forall i :: 1 <= i < |targets| ==> ([s] + xs)[i] == xs[i - 1] && targets[1..][i - 1] == targets[i];
  }

  /** One state per expected token, carrying the token itself. */
  lemma {:induction false} WalkWordsKept(cm: CharModel, targets: seq<string>, typed: seq<string>, cursor: nat)
    requires cursor <= |typed|
    ensures WordsKept(Walk(cm, targets, typed, cursor).states, targets)
    decreases |targets|
  {
    if |targets| > 0 {
      WalkHead(cm, targets, typed, cursor);
      if Substituted(cm, targets, typed, cursor) {
        AllUpcomingWords(targets[1..]);
        WordsKeptCons(WordState(targets[0], Error), AllUpcoming(targets[1..]), targets);
      } else {
        WalkWordsKept(cm, targets[1..], typed, NextCursor(cm, targets, typed, cursor));
        WordsKeptCons(Walk(cm, targets, typed, cursor).states[0],
                      Walk(cm, targets[1..], typed, NextCursor(cm, targets, typed, cursor)).states, targets);
      }
    }
  }

  lemma {:induction false} AllUpcomingWords(targets: seq<string>)
    ensures WordsKept(AllUpcoming(targets), targets)
    ensures forall i :: 0 <= i < |targets| ==> AllUpcoming(targets)[i].status == Upcoming
    decreases |targets|
  {
    if |targets| > 0 {
      AllUpcomingWords(targets[1..]);
      WordsKeptCons(WordState(targets[0], Upcoming), AllUpcoming(targets[1..]), targets);
      assert forall i :: 1 <= i < |targets| ==> AllUpcoming(targets)[i] == AllUpcoming(targets[1..])[i - 1];
    }
  }

  /** An `error` state has only `correct` states before it and only
      `upcoming` ones after it, and it is the expected side of the reported
      substitution. */
  predicate ErrorShape(states: seq<WordState>, m: Option<Mismatch>, targets: seq<string>) {
    forall e :: 0 <= e < |states| && e < |targets| && states[e].status == Error ==>
      && (forall i :: 0 <= i < e ==> states[i].status == Correct)
      && (forall i :: e < i < |states| ==> states[i].status == Upcoming)
      && m.Some? && m.value.expected == targets[e]
  }

  lemma ErrorShapeCons(s: WordState, xs: seq<WordState>, m: Option<Mismatch>, targets: seq<string>)
    requires |targets| == |xs| + 1
    requires s.status == Correct || (s.status == Upcoming && NoError(xs))
    requires ErrorShape(xs, m, targets[1..])
    ensures ErrorShape([s] + xs, m, targets)
  {
    StatusesIndexed(xs);
    assert forall i :: 0 < i <= |xs| ==> ([s] + xs)[i] == xs[i - 1] && targets[1..][i - 1] == targets[i];
  }

  lemma ErrorShapeHead(m: Mismatch, rest: seq<string>, targets: seq<string>)
    requires |targets| == |rest| + 1 && targets[0] == m.expected
    ensures ErrorShape([WordState(m.expected, Error)] + AllUpcoming(rest), Some(m), targets)
  {
    AllUpcomingWords(rest);
    assert forall i :: 0 < i <= |rest| ==> ([WordState(m.expected, Error)] + AllUpcoming(rest))[i] == AllUpcoming(rest)[i - 1];
  }

  /** Prefix structure: an `error` state is preceded only by `correct` states
      and followed only by `upcoming` ones, and it is the expected word of the
      reported substitution; hence there is at most one. */
  lemma {:induction false} WalkPrefixStructure(cm: CharModel, targets: seq<string>, typed: seq<string>, cursor: nat)
    requires cursor <= |typed|
    ensures ErrorShape(Walk(cm, targets, typed, cursor).states, Walk(cm, targets, typed, cursor).mismatch, targets)
    decreases |targets|
  {
    if |targets| > 0 {
      WalkHead(cm, targets, typed, cursor);
      if Substituted(cm, targets, typed, cursor) {
        ErrorShapeHead(Mismatch(targets[0], typed[SkipBlank(cm, typed, cursor)]), targets[1..], targets);
      } else {
        WalkPrefixStructure(cm, targets[1..], typed, NextCursor(cm, targets, typed, cursor));
        if !IsBlank(cm, targets[0]) && SkipBlank(cm, typed, cursor) == |typed| {
          // Out of typed words: nothing later can be an error.
          WalkExhausted(cm, targets[1..], typed);
        }
        ErrorShapeCons(Walk(cm, targets, typed, cursor).states[0],
                       Walk(cm, targets[1..], typed, NextCursor(cm, targets, typed, cursor)).states,
                       Walk(cm, targets[1..], typed, NextCursor(cm, targets, typed, cursor)).mismatch, targets);
      }
    }
  }

  /** Once the typed words are used up, no later word is an error and no
      substitution is found. */
  lemma {:induction false} WalkExhausted(cm: CharModel, targets: seq<string>, typed: seq<string>)
    ensures NoError(Walk(cm, targets, typed, |typed|).states)
    ensures Walk(cm, targets, typed, |typed|).mismatch.None? && Walk(cm, targets, typed, |typed|).cursor == |typed|
    decreases |targets|
  {
    if |targets| > 0 {
      WalkExhausted(cm, targets[1..], typed);
      StatusCons(Walk(cm, targets, typed, |typed|).states[0], Walk(cm, targets[1..], typed, |typed|).states);
    }
  }

  /** Once only blank typed words are left, each later expected word is
      `correct` when it is punctuation-only and `upcoming` otherwise, and no
      substitution is found. */
  lemma {:induction false} WalkRunsOut(cm: CharModel, targets: seq<string>, typed: seq<string>, cursor: nat)
    requires cursor <= |typed| && SkipBlank(cm, typed, cursor) == |typed|
    ensures forall i :: 0 <= i < |targets| ==>
              Walk(cm, targets, typed, cursor).states[i].status == (if IsBlank(cm, targets[i]) then Correct else Upcoming)
    ensures Walk(cm, targets, typed, cursor).mismatch.None?
    decreases |targets|
  {
    if |targets| > 0 {
      var w := Walk(cm, targets, typed, cursor);
      var next := if IsBlank(cm, targets[0]) then cursor else |typed|;
      if IsBlank(cm, targets[0]) {
        WalkBlankHead(cm, targets, typed, cursor);
      } else {
        WalkExhaustedHead(cm, targets, typed, cursor);
      }
      WalkRunsOut(cm, targets[1..], typed, next);
      var w' := Walk(cm, targets[1..], typed, next);
      assert w.states == [w.states[0]] + w'.states;
      forall i | 0 < i < |targets|
        ensures w.states[i].status == (if IsBlank(cm, targets[i]) then Correct else Upcoming)
      {
        assert w.states[i] == w'.states[i - 1];
        assert targets[1..][i - 1] == targets[i];
      }
    }
  }

  /** A punctuation-only expected word is `correct` unless an error came
      before it. */
  predicate BlanksCorrect(cm: CharModel, states: seq<WordState>, targets: seq<string>) {
    forall i :: 0 <= i < |states| && i < |targets| && IsBlank(cm, targets[i]) && NoError(states[..i]) ==>
      states[i].status == Correct
  }

  lemma BlanksCorrectCons(cm: CharModel, s: WordState, xs: seq<WordState>, targets: seq<string>)
    requires |targets| > 0 && s.status != Error && (IsBlank(cm, targets[0]) ==> s.status == Correct)
    requires BlanksCorrect(cm, xs, targets[1..])
    ensures BlanksCorrect(cm, [s] + xs, targets)
  {
    forall i | 0 < i < |[s] + xs| && i < |targets| && IsBlank(cm, targets[i]) && NoError(([s] + xs)[..i])
      ensures ([s] + xs)[i].status == Correct
    {
      assert ([s] + xs)[..i] == [s] + xs[..i - 1];
      StatusCons(s, xs[..i - 1]);
      assert targets[1..][i - 1] == targets[i];
      assert ([s] + xs)[i] == xs[i - 1];
    }
  }

  lemma BlanksCorrectErrorHead(cm: CharModel, s: WordState, xs: seq<WordState>, targets: seq<string>)
    requires |targets| > 0 && s.status == Error && !IsBlank(cm, targets[0])
    ensures BlanksCorrect(cm, [s] + xs, targets)
  {
    forall i | 0 < i <= |xs|
      ensures !NoError(([s] + xs)[..i])
    {
      assert ([s] + xs)[..i][0] == s;
    }
  }

  lemma {:induction false} WalkBlankTargets(cm: CharModel, targets: seq<string>, typed: seq<string>, cursor: nat)
    requires cursor <= |typed|
    ensures BlanksCorrect(cm, Walk(cm, targets, typed, cursor).states, targets)
    decreases |targets|
  {
    if |targets| > 0 {
      WalkHead(cm, targets, typed, cursor);
      if Substituted(cm, targets, typed, cursor) {
        BlanksCorrectErrorHead(cm, WordState(targets[0], Error), AllUpcoming(targets[1..]), targets);
      } else {
        WalkBlankTargets(cm, targets[1..], typed, NextCursor(cm, targets, typed, cursor));
        BlanksCorrectCons(cm, Walk(cm, targets, typed, cursor).states[0],
                          Walk(cm, targets[1..], typed, NextCursor(cm, targets, typed, cursor)).states, targets);
      }
    }
  }

  /** A reported substitution pairs an expected word with a typed word, both
      with non-empty and different sanitised forms ... */
  lemma WalkMismatch(cm: CharModel, targets: seq<string>, typed: seq<string>, cursor: nat)
    requires cursor <= |typed|
    ensures var w := Walk(cm, targets, typed, cursor);
            w.mismatch.Some? ==>
              && w.mismatch.value.expected in targets
              && w.mismatch.value.typed in typed[cursor..]
              && !IsBlank(cm, w.mismatch.value.expected)
              && !IsBlank(cm, w.mismatch.value.typed)
              && SanitizeWord(cm, w.mismatch.value.expected) != SanitizeWord(cm, w.mismatch.value.typed)
  {
    WalkMismatchSources(cm, targets, typed, cursor);
    WalkMismatchWords(cm, targets, typed, cursor);
  }

  /** ... taken from the expected words and from the typed words at or after
      the cursor ... */
  lemma {:induction false} WalkMismatchSources(cm: CharModel, targets: seq<string>, typed: seq<string>, cursor: nat)
    requires cursor <= |typed|
    ensures Walk(cm, targets, typed, cursor).mismatch.Some? ==>
              && Walk(cm, targets, typed, cursor).mismatch.value.expected in targets
              && Walk(cm, targets, typed, cursor).mismatch.value.typed in typed[cursor..]
    decreases |targets|
  {
    if |targets| > 0 {
      WalkHead(cm, targets, typed, cursor);
      if Substituted(cm, targets, typed, cursor) {
        assert typed[cursor..][SkipBlank(cm, typed, cursor) - cursor] == typed[SkipBlank(cm, typed, cursor)];
      } else {
        WalkMismatchSources(cm, targets[1..], typed, NextCursor(cm, targets, typed, cursor));
        SuffixMembers(targets, 0, 1);
        SuffixMembers(typed, cursor, NextCursor(cm, targets, typed, cursor));
        assert targets[0..] == targets;
      }
    }
  }

  /** Whatever occurs in a later suffix occurs in an earlier one. */
  lemma SuffixMembers<T>(xs: seq<T>, a: nat, b: nat)
    requires a <= b <= |xs|
    ensures forall x :: x in xs[b..] ==> x in xs[a..]
  {
    forall x | x in xs[b..]
      ensures x in xs[a..]
    {
      var k :| 0 <= k < |xs[b..]| && xs[b..][k] == x;
      assert xs[a..][b - a + k] == x;
    }
  }

  /** ... whose sanitised forms are non-empty and different. */
  lemma {:induction false} WalkMismatchWords(cm: CharModel, targets: seq<string>, typed: seq<string>, cursor: nat)
    requires cursor <= |typed|
    ensures var w := Walk(cm, targets, typed, cursor);
            w.mismatch.Some? ==>
              && !IsBlank(cm, w.mismatch.value.expected)
              && !IsBlank(cm, w.mismatch.value.typed)
              && SanitizeWord(cm, w.mismatch.value.expected) != SanitizeWord(cm, w.mismatch.value.typed)
    decreases |targets|
  {
    if |targets| > 0 {
      var j := SkipBlank(cm, typed, cursor);
      var next := if IsBlank(cm, targets[0]) then cursor else if j == |typed| then j else j + 1;
      WalkMismatchWords(cm, targets[1..], typed, next);
    }
  }

  // ---------------------------------------------------------------------
  // What the alignment decides
  // ---------------------------------------------------------------------

  /** The two word lists agree wherever both have a word. */
  predicate Agree(a: seq<string>, b: seq<string>) {
    |a| == 0 || |b| == 0 || (a[0] == b[0] && Agree(a[1..], b[1..]))
  }

  predicate IsPrefix(a: seq<string>, b: seq<string>) {
    |a| <= |b| && a == b[..|a|]
  }

  lemma AgreeCons(x: string, a: seq<string>, y: string, b: seq<string>)
    ensures Agree([x] + a, [y] + b) <==> x == y && Agree(a, b)
  {
    assert ([x] + a)[1..] == a && ([y] + b)[1..] == b;
  }

  /** `Agree`, position by position. */
  lemma {:induction false} AgreeIndexed(a: seq<string>, b: seq<string>)
    ensures Agree(a, b) <==> forall k :: 0 <= k < |a| && k < |b| ==> a[k] == b[k]
    decreases |a|
  {
    if |a| > 0 && |b| > 0 {
      AgreeIndexed(a[1..], b[1..]);
      assert forall k :: 1 <= k < |a| ==> a[k] == a[1..][k - 1];
      assert forall k :: 1 <= k < |b| ==> b[k] == b[1..][k - 1];
    }
  }

  /** The comparable words from a cursor that has landed on `j`: the word
      there, then the rest; nothing when `j` is past the end. */
  function Landed(cm: CharModel, typed: seq<string>, j: nat): seq<string>
    requires j <= |typed|
  {
    if j < |typed| then [SanitizeWord(cm, typed[j])] + ComparableWords(cm, typed[j + 1..]) else []
  }

  /** The comparable typed words from `cursor` on, seen through the inner
      skip: the first one is the word the cursor lands on. */
  lemma {:induction false} ComparableFrom(cm: CharModel, typed: seq<string>, cursor: nat)
    requires cursor <= |typed|
    ensures ComparableWords(cm, typed[cursor..]) == Landed(cm, typed, SkipBlank(cm, typed, cursor))
    decreases |typed| - cursor
  {
    if cursor == |typed| {
      assert typed[cursor..] == [];
    } else if IsBlank(cm, typed[cursor]) {
      ComparableFrom(cm, typed, cursor + 1);
      ComparableAt(cm, typed, cursor);
    } else {
      ComparableAt(cm, typed, cursor);
    }
  }

  lemma ComparableAt(cm: CharModel, typed: seq<string>, cursor: nat)
    requires cursor < |typed|
    ensures ComparableWords(cm, typed[cursor..]) ==
              if IsBlank(cm, typed[cursor]) then ComparableWords(cm, typed[cursor + 1..])
              else [SanitizeWord(cm, typed[cursor])] + ComparableWords(cm, typed[cursor + 1..])
  {
    assert typed[cursor..][0] == typed[cursor] && typed[cursor..][1..] == typed[cursor + 1..];
    ComparableCons(cm, typed[cursor..]);
  }

  lemma ComparableCons(cm: CharModel, targets: seq<string>)
    requires |targets| > 0
    ensures ComparableWords(cm, targets) ==
              if IsBlank(cm, targets[0]) then ComparableWords(cm, targets[1..])
              else [SanitizeWord(cm, targets[0])] + ComparableWords(cm, targets[1..])
  {
  }

  /** How a walk's outcome relates to the comparable words A of the expected
      tokens, B of the typed tokens from the cursor on, and C of the typed
      tokens left after the walk's cursor: no error exactly when A and B agree
      where both have a word, an error exactly when a substitution is reported,
      every word `correct` exactly when moreover B is at least as long as A,
      and without an error C holds the words of B beyond A's length. */
  predicate Characterised(states: seq<WordState>, substituted: bool,
                          A: seq<string>, B: seq<string>, C: seq<string>)
  {
    && NoError(states) == Agree(A, B)
    && NoError(states) == !substituted
    && AllCorrect(states) == (Agree(A, B) && |A| <= |B|)
    && (NoError(states) ==> C == if |A| <= |B| then B[|A|..] else [])
  }

  lemma CharacterisedBlank(s: WordState, states: seq<WordState>, m: bool,
                           A: seq<string>, B: seq<string>, C: seq<string>)
    requires s.status == Correct && Characterised(states, m, A, B, C)
    ensures Characterised([s] + states, m, A, B, C)
  {
    StatusCons(s, states);
  }

  lemma CharacterisedMatch(s: WordState, states: seq<WordState>, m: bool,
                           k: string, A: seq<string>, B: seq<string>, C: seq<string>)
    requires s.status == Correct && Characterised(states, m, A, B, C)
    ensures Characterised([s] + states, m, [k] + A, [k] + B, C)
  {
    StatusCons(s, states);
    AgreeCons(k, A, k, B);
    if |A| <= |B| {
      assert ([k] + B)[|[k] + A|..] == B[|A|..];
    }
  }

  lemma CharacterisedExhausted(s: WordState, states: seq<WordState>, m: bool,
                               k: string, A: seq<string>, C: seq<string>)
    requires s.status == Upcoming && Characterised(states, m, A, [], C)
    ensures Characterised([s] + states, m, [k] + A, [], C)
  {
    StatusCons(s, states);
  }

  lemma CharacterisedError(states: seq<WordState>, A: seq<string>, B: seq<string>, C: seq<string>)
    requires |states| > 0 && states[0].status == Error
    requires |A| > 0 && |B| > 0 && A[0] != B[0]
    ensures Characterised(states, true, A, B, C)
  {
  }

  /** The walk's outcome, characterised by the comparable words. */
  lemma {:induction false} WalkAgreement(cm: CharModel, targets: seq<string>, typed: seq<string>, cursor: nat)
    requires cursor <= |typed|
    ensures WalkCharacterised(cm, targets, typed, cursor)
    decreases |targets|, 2
  {
    if |targets| == 0 {
      assert ComparableWords(cm, typed[cursor..])[0..] == ComparableWords(cm, typed[cursor..]);
    } else if IsBlank(cm, targets[0]) {
      AgreementBlankStep(cm, targets, typed, cursor);
    } else if SkipBlank(cm, typed, cursor) == |typed| {
      AgreementExhaustedStep(cm, targets, typed, cursor);
    } else if SanitizeWord(cm, targets[0]) == SanitizeWord(cm, typed[SkipBlank(cm, typed, cursor)]) {
      AgreementMatchStep(cm, targets, typed, cursor);
    } else {
      AgreementErrorStep(cm, targets, typed, cursor);
    }
  }

  /** `Characterised` for a walk `w` whose expected side is A and typed side
      B, with C the comparable typed words from its final cursor. */
  predicate CharacterisedWalk(cm: CharModel, typed: seq<string>, w: Walked, A: seq<string>, B: seq<string>)
    requires w.cursor <= |typed|
  {
    Characterised(w.states, w.mismatch.Some?, A, B, ComparableWords(cm, typed[w.cursor..]))
  }

  /** `Characterised` for the walk from `cursor`. */
  predicate WalkCharacterised(cm: CharModel, targets: seq<string>, typed: seq<string>, cursor: nat)
    requires cursor <= |typed|
  {
    CharacterisedWalk(cm, typed, Walk(cm, targets, typed, cursor),
                      ComparableWords(cm, targets), ComparableWords(cm, typed[cursor..]))
  }

  lemma AgreementBlankStep(cm: CharModel, targets: seq<string>, typed: seq<string>, cursor: nat)
    requires cursor <= |typed| && |targets| > 0 && IsBlank(cm, targets[0])
    ensures WalkCharacterised(cm, targets, typed, cursor)
    decreases |targets|, 0
  {
    WalkAgreement(cm, targets[1..], typed, cursor);
    ComparableCons(cm, targets);
    WalkBlankHead(cm, targets, typed, cursor);
    StepBlank(cm, typed, Walk(cm, targets, typed, cursor), Walk(cm, targets[1..], typed, cursor), targets[0],
              ComparableWords(cm, targets[1..]), ComparableWords(cm, typed[cursor..]));
  }

  lemma AgreementExhaustedStep(cm: CharModel, targets: seq<string>, typed: seq<string>, cursor: nat)
    requires cursor <= |typed| && |targets| > 0 && !IsBlank(cm, targets[0])
    requires SkipBlank(cm, typed, cursor) == |typed|
    ensures WalkCharacterised(cm, targets, typed, cursor)
    decreases |targets|, 0
  {
    WalkAgreement(cm, targets[1..], typed, |typed|);
    ComparableCons(cm, targets);
    ComparableFrom(cm, typed, cursor);
    assert typed[|typed|..] == [];
    WalkExhaustedHead(cm, targets, typed, cursor);
    StepExhausted(cm, typed, Walk(cm, targets, typed, cursor), Walk(cm, targets[1..], typed, |typed|), targets[0],
                  SanitizeWord(cm, targets[0]), ComparableWords(cm, targets[1..]),
                  ComparableWords(cm, targets), ComparableWords(cm, typed[cursor..]));
  }

  lemma AgreementMatchStep(cm: CharModel, targets: seq<string>, typed: seq<string>, cursor: nat)
    requires cursor <= |typed| && |targets| > 0 && !IsBlank(cm, targets[0])
    requires SkipBlank(cm, typed, cursor) < |typed|
    requires SanitizeWord(cm, targets[0]) == SanitizeWord(cm, typed[SkipBlank(cm, typed, cursor)])
    ensures WalkCharacterised(cm, targets, typed, cursor)
    decreases |targets|, 1
  {
    WalkAgreement(cm, targets[1..], typed, SkipBlank(cm, typed, cursor) + 1);
    MatchStepAt(cm, targets, typed, cursor);
  }

  /** The match step once the walk from the next typed word is known. */
  lemma MatchStepAt(cm: CharModel, targets: seq<string>, typed: seq<string>, cursor: nat)
    requires cursor <= |typed| && |targets| > 0 && !IsBlank(cm, targets[0])
    requires SkipBlank(cm, typed, cursor) < |typed|
    requires SanitizeWord(cm, targets[0]) == SanitizeWord(cm, typed[SkipBlank(cm, typed, cursor)])
    requires WalkCharacterised(cm, targets[1..], typed, SkipBlank(cm, typed, cursor) + 1)
    ensures WalkCharacterised(cm, targets, typed, cursor)
  {
    MatchComparables(cm, targets, typed, cursor);
    WalkMatchHead(cm, targets, typed, cursor);
    StepMatch(cm, typed, Walk(cm, targets, typed, cursor),
              Walk(cm, targets[1..], typed, SkipBlank(cm, typed, cursor) + 1), targets[0],
              SanitizeWord(cm, targets[0]), ComparableWords(cm, targets[1..]),
              ComparableWords(cm, typed[SkipBlank(cm, typed, cursor) + 1..]),
              ComparableWords(cm, targets), ComparableWords(cm, typed[cursor..]));
  }

  lemma AgreementErrorStep(cm: CharModel, targets: seq<string>, typed: seq<string>, cursor: nat)
    requires cursor <= |typed| && |targets| > 0 && !IsBlank(cm, targets[0])
    requires SkipBlank(cm, typed, cursor) < |typed|
    requires SanitizeWord(cm, targets[0]) != SanitizeWord(cm, typed[SkipBlank(cm, typed, cursor)])
    ensures WalkCharacterised(cm, targets, typed, cursor)
  {
    ComparableCons(cm, targets);
    ComparableFrom(cm, typed, cursor);
    CharacterisedError(Walk(cm, targets, typed, cursor).states, ComparableWords(cm, targets),
                       ComparableWords(cm, typed[cursor..]),
                       ComparableWords(cm, typed[Walk(cm, targets, typed, cursor).cursor..]));
  }

  /** A blank expected word: `correct`, nothing consumed on either side. */
  lemma StepBlank(cm: CharModel, typed: seq<string>, w: Walked, w': Walked, word: string,
                  A: seq<string>, B: seq<string>)
    requires w'.cursor <= |typed| && w == Cons(WordState(word, Correct), w')
    requires CharacterisedWalk(cm, typed, w', A, B)
    ensures CharacterisedWalk(cm, typed, w, A, B)
  {
    CharacterisedBlank(WordState(word, Correct), w'.states, w'.mismatch.Some?, A, B,
                       ComparableWords(cm, typed[w'.cursor..]));
  }

  /** No typed word left: `upcoming`, one expected word consumed. */
  lemma StepExhausted(cm: CharModel, typed: seq<string>, w: Walked, w': Walked, word: string,
                      k: string, A: seq<string>, A': seq<string>, B': seq<string>)
    requires w'.cursor <= |typed| && w == Cons(WordState(word, Upcoming), w')
    requires CharacterisedWalk(cm, typed, w', A, [])
    requires A' == [k] + A && B' == []
    ensures CharacterisedWalk(cm, typed, w, A', B')
  {
    CharacterisedExhausted(WordState(word, Upcoming), w'.states, w'.mismatch.Some?, k, A,
                           ComparableWords(cm, typed[w'.cursor..]));
  }

  /** A match: `correct`, one word consumed on each side. */
  lemma StepMatch(cm: CharModel, typed: seq<string>, w: Walked, w': Walked, word: string,
                  k: string, A: seq<string>, B: seq<string>, A': seq<string>, B': seq<string>)
    requires w'.cursor <= |typed| && w == Cons(WordState(word, Correct), w')
    requires CharacterisedWalk(cm, typed, w', A, B)
    requires A' == [k] + A && B' == [k] + B
    ensures CharacterisedWalk(cm, typed, w, A', B')
  {
    CharacterisedMatch(WordState(word, Correct), w'.states, w'.mismatch.Some?, k, A, B,
                       ComparableWords(cm, typed[w'.cursor..]));
  }

  lemma WalkBlankHead(cm: CharModel, targets: seq<string>, typed: seq<string>, cursor: nat)
    requires cursor <= |typed| && |targets| > 0 && IsBlank(cm, targets[0])
    ensures Walk(cm, targets, typed, cursor)
              == Cons(WordState(targets[0], Correct), Walk(cm, targets[1..], typed, cursor))
  {
  }

  lemma WalkExhaustedHead(cm: CharModel, targets: seq<string>, typed: seq<string>, cursor: nat)
    requires cursor <= |typed| && |targets| > 0 && !IsBlank(cm, targets[0])
    requires SkipBlank(cm, typed, cursor) == |typed|
    ensures Walk(cm, targets, typed, cursor)
              == Cons(WordState(targets[0], Upcoming), Walk(cm, targets[1..], typed, |typed|))
  {
  }

  lemma WalkMatchHead(cm: CharModel, targets: seq<string>, typed: seq<string>, cursor: nat)
    requires cursor <= |typed| && |targets| > 0 && !IsBlank(cm, targets[0])
    requires SkipBlank(cm, typed, cursor) < |typed|
    requires SanitizeWord(cm, targets[0]) == SanitizeWord(cm, typed[SkipBlank(cm, typed, cursor)])
    ensures Walk(cm, targets, typed, cursor)
              == Cons(WordState(targets[0], Correct), Walk(cm, targets[1..], typed, SkipBlank(cm, typed, cursor) + 1))
  {
  }

  lemma MatchComparables(cm: CharModel, targets: seq<string>, typed: seq<string>, cursor: nat)
    requires cursor <= |typed| && |targets| > 0 && !IsBlank(cm, targets[0])
    requires SkipBlank(cm, typed, cursor) < |typed|
    requires SanitizeWord(cm, targets[0]) == SanitizeWord(cm, typed[SkipBlank(cm, typed, cursor)])
    ensures ComparableWords(cm, targets) == [SanitizeWord(cm, targets[0])] + ComparableWords(cm, targets[1..])
    ensures ComparableWords(cm, typed[cursor..])
              == [SanitizeWord(cm, targets[0])] + ComparableWords(cm, typed[SkipBlank(cm, typed, cursor) + 1..])
  {
    ComparableCons(cm, targets);
    ComparableFrom(cm, typed, cursor);
  }

  /** The alignment decides the comparable words A (expected) and B (typed):
      no error state iff A and B agree where both have a word; no mismatch iff
      B is a prefix of A; every state correct and no mismatch iff A == B. */
  lemma AlignCharacterisation(cm: CharModel, targets: seq<string>, typed: seq<string>)
    ensures var a := Align(cm, targets, typed);
            var A := ComparableWords(cm, targets);
            var B := ComparableWords(cm, typed);
            && (NoError(a.wordStates) <==> Agree(A, B))
            && (a.mismatch.None? <==> IsPrefix(B, A))
            && (AllCorrect(a.wordStates) && a.mismatch.None? <==> A == B)
  {
    var w := Walk(cm, targets, typed, 0);
    var a := Align(cm, targets, typed);
    var A := ComparableWords(cm, targets);
    var B := ComparableWords(cm, typed);
    assert typed[0..] == typed;
    WalkAgreement(cm, targets, typed, 0);
    assert Characterised(w.states, w.mismatch.Some?, A, B, ComparableWords(cm, typed[w.cursor..]));
    assert a.wordStates == w.states;
    if NoError(w.states) {
      ComparableFrom(cm, typed, w.cursor);
      assert a.mismatch == Trailing(cm, typed, w.cursor);
      assert a.mismatch.None? <==> ComparableWords(cm, typed[w.cursor..]) == [];
      PrefixOfAgreeing(A, B);
    } else {
      assert a.mismatch.Some?;
      PrefixOfAgreeing(A, B);
    }
  }

  lemma PrefixOfAgreeing(A: seq<string>, B: seq<string>)
    ensures IsPrefix(B, A) <==> Agree(A, B) && |B| <= |A|
    ensures A == B <==> Agree(A, B) && |A| == |B|
  {
    AgreeIndexed(A, B);
    if Agree(A, B) && |B| <= |A| {
      assert B == A[..|B|];
    }
  }

  /** The shape promised for every alignment: one state per expected token
      carrying the token; an `error` state has only `correct` states before
      it and only `upcoming` ones after it and is the expected side of the
      reported substitution; a punctuation-only expected word before any
      error is `correct`; a reported typed word is never punctuation-only; a
      substitution compares two different sanitised forms, and a mismatch
      without any error state is an extra typed word. */
  lemma AlignShape(cm: CharModel, targets: seq<string>, typed: seq<string>)
    ensures var a := Align(cm, targets, typed);
            && (forall i :: 0 <= i < |targets| ==> a.wordStates[i].word == targets[i])
            && (forall e :: 0 <= e < |targets| && a.wordStates[e].status == Error ==>
                  && (forall i :: 0 <= i < e ==> a.wordStates[i].status == Correct)
                  && (forall i :: e < i < |targets| ==> a.wordStates[i].status == Upcoming)
                  && a.mismatch.Some? && a.mismatch.value.expected == targets[e])
            && (forall i :: 0 <= i < |targets| && IsBlank(cm, targets[i]) && NoError(a.wordStates[..i]) ==>
                  a.wordStates[i].status == Correct)
            && (a.mismatch.Some? ==> a.mismatch.value.typed in typed && !IsBlank(cm, a.mismatch.value.typed))
            && (a.mismatch.Some? && !NoError(a.wordStates) ==>
                  && a.mismatch.value.expected in targets
                  && SanitizeWord(cm, a.mismatch.value.expected) != SanitizeWord(cm, a.mismatch.value.typed))
            && (a.mismatch.Some? && NoError(a.wordStates) ==> a.mismatch.value.expected == "")
  {
    var w := Walk(cm, targets, typed, 0);
    assert typed[0..] == typed;
    WalkWordsKept(cm, targets, typed, 0);
    WalkPrefixStructure(cm, targets, typed, 0);
    WalkBlankTargets(cm, targets, typed, 0);
    WalkMismatch(cm, targets, typed, 0);
    WalkAgreement(cm, targets, typed, 0);
  }

  /** At most one expected word is marked `error`. */
  lemma AtMostOneError(cm: CharModel, targets: seq<string>, typed: seq<string>)
    ensures var a := Align(cm, targets, typed);
            forall i, j ::
              (0 <= i < |targets| && 0 <= j < |targets| &&
               a.wordStates[i].status == Error && a.wordStates[j].status == Error) ==> i == j
  {
    AlignShape(cm, targets, typed);
  }
}
