/** Models of the ECMAScript string built-ins the dictation core relies on:
    the `\s` character class (which `String.prototype.trim` shares),
    `replace(/\s+/g, x)`, `split(/\s+/).filter(Boolean)`, the space-joined
    form of a word list, and UTF-16 encoding. */
module JsText {

  /** Code points of ECMAScript WhiteSpace and LineTerminator: exactly the
      characters matched by `\s` and removed by `trim`. All lie in the Basic
      Multilingual Plane. */
  const WhitespaceCodes: set<int> :=
    { 0x09, 0x0A, 0x0B, 0x0C, 0x0D, 0x20, 0xA0, 0x1680,
      0x2000, 0x2001, 0x2002, 0x2003, 0x2004, 0x2005, 0x2006, 0x2007,
      0x2008, 0x2009, 0x200A, 0x2028, 0x2029, 0x202F, 0x205F, 0x3000, 0xFEFF }

  predicate IsSpaceCode(u: int) {
    u in WhitespaceCodes
  }

  predicate IsSpace(c: char) {
    IsSpaceCode(c as int)
  }

  predicate IsWordChar(c: char) {
    !IsSpace(c)
  }

  /** Length of the longest prefix of `s` whose elements all satisfy `sep`. */
  function LeadRun<T>(s: seq<T>, sep: T -> bool): (n: nat)
    ensures n <= |s|
    ensures forall i :: 0 <= i < n ==> sep(s[i])
    ensures n < |s| ==> !sep(s[n])
  {
    if |s| == 0 || !sep(s[0]) then 0 else 1 + LeadRun(s[1..], sep)
  }

  /** Length of the longest suffix of `s` whose elements all satisfy `sep`. */
  function TrailRun<T>(s: seq<T>, sep: T -> bool): (n: nat)
    ensures n <= |s|
    ensures forall i :: |s| - n <= i < |s| ==> sep(s[i])
    ensures n < |s| ==> !sep(s[|s| - n - 1])
  {
    if |s| == 0 || !sep(s[|s| - 1]) then 0 else 1 + TrailRun(s[..|s| - 1], sep)
  }

  /** `s.replace(/<sep>+/g, repl)`: every maximal run of separators becomes
      one `repl`; everything else is kept in order. */
  function ReplaceRuns<T(==)>(s: seq<T>, sep: T -> bool, repl: T): (r: seq<T>)
    ensures |r| <= |s|
    ensures forall i :: 0 <= i < |r| && sep(r[i]) ==> r[i] == repl
    ensures forall i :: 0 <= i < |r| - 1 ==> !(sep(r[i]) && sep(r[i + 1]))
    ensures |s| > 0 && !sep(s[0]) ==> |r| > 0 && r[0] == s[0]
    ensures |s| > 0 && sep(s[0]) ==> |r| > 0 && r[0] == repl
    decreases |s|
  {
    if |s| == 0 then []
    else if sep(s[0]) then [repl] + ReplaceRuns(s[LeadRun(s, sep)..], sep, repl)
    else [s[0]] + ReplaceRuns(s[1..], sep, repl)
  }

  function TrimStart(s: string): string {
    s[LeadRun(s, IsSpace)..]
  }

  function TrimEnd(s: string): string {
    s[..|s| - TrailRun(s, IsSpace)]
  }

  /** `s[a..b]` is `s` without a leading and a trailing whitespace run. */
  predicate TrimmedAt(s: string, a: int, b: int) {
    && 0 <= a <= b <= |s|
    && (forall i :: 0 <= i < a ==> IsSpace(s[i]))
    && (forall i :: b <= i < |s| ==> IsSpace(s[i]))
  }

  /** `s.trim()`: the input less its leading and trailing whitespace, and
      no more (the result starts and ends with non-whitespace). */
  function Trim(s: string): (r: string)
    ensures |r| <= |s|
    ensures |r| > 0 ==> !IsSpace(r[0]) && !IsSpace(r[|r| - 1])
    ensures exists a, b :: TrimmedAt(s, a, b) && r == s[a..b]
  {
    var a := LeadRun(s, IsSpace);
    var n := TrailRun(s[a..], IsSpace);
    assert TrimmedAt(s, a, |s| - n) by {
      forall i | |s| - n <= i < |s|
        ensures IsSpace(s[i])
      {
        assert s[i] == s[a..][i - a];
      }
    }
    assert TrimEnd(TrimStart(s)) == s[a..|s| - n];
    TrimEnd(TrimStart(s))
  }

  /** `s.split(/\s/)`: the pieces between single whitespace characters,
      empty pieces included. */
  function SplitEach(s: string): (r: seq<string>)
    ensures |r| >= 1
    ensures forall i, j :: 0 <= i < |r| && 0 <= j < |r[i]| ==> !IsSpace(r[i][j])
  {
    if |s| == 0 then [""]
    else
      var rest := SplitEach(s[1..]);
      if IsSpace(s[0]) then [""] + rest
      else PrependChar(s[0], rest)
  }

  /** Extends the first piece of a split by one character. */
  function PrependChar(c: char, X: seq<string>): (r: seq<string>)
    requires |X| >= 1
    ensures |r| == |X|
  {
    [[c] + X[0]] + X[1..]
  }

  /** Joins two splits at their common boundary piece. */
  function Glue(A: seq<string>, B: seq<string>): (r: seq<string>)
    requires |A| >= 1 && |B| >= 1
    ensures |r| == |A| + |B| - 1
  {
    A[..|A| - 1] + [A[|A| - 1] + B[0]] + B[1..]
  }

  /** `ws.filter(Boolean)` on a list of strings: the non-empty pieces, in
      order (`NonEmptyMembers` and `NonEmptyAppend` pin contents and order). */
  function NonEmpty(ws: seq<string>): (r: seq<string>)
    ensures |r| <= |ws|
    ensures forall i :: 0 <= i < |r| ==> |r[i]| > 0
  {
    if |ws| == 0 then []
    else (if |ws[0]| == 0 then [] else [ws[0]]) + NonEmpty(ws[1..])
  }

  /** `s.split(/\s+/)`: the pieces between maximal whitespace runs, which
      are the pieces between single whitespace characters once every run has
      been collapsed to one space. */
  function SplitRuns(s: string): seq<string> {
    SplitEach(ReplaceRuns(s, IsSpace, ' '))
  }

  /** The whitespace-separated tokens of `s`: every piece between single
      whitespace characters, empty pieces dropped. */
  function Tokens(s: string): seq<string> {
    NonEmpty(SplitEach(s))
  }

  /** A token list as produced by `Tokens`: non-empty, whitespace-free words. */
  predicate ValidWords(ws: seq<string>) {
    forall i :: 0 <= i < |ws| ==> |ws[i]| > 0 && forall j :: 0 <= j < |ws[i]| ==> IsWordChar(ws[i][j])
  }

  /** `ws.join(" ")`. */
  function Join(ws: seq<string>): string {
    if |ws| == 0 then ""
    else if |ws| == 1 then ws[0]
    else ws[0] + " " + Join(ws[1..])
  }

  /** Normal form of `normalize`: no leading or trailing whitespace, and every
      whitespace character is a single ' ' between two non-whitespace ones. */
  predicate IsNormal(s: string) {
    && (|s| > 0 ==> !IsSpace(s[0]) && !IsSpace(s[|s| - 1]))
    && (forall i :: 0 <= i < |s| && IsSpace(s[i]) ==> s[i] == ' ')
    && (forall i :: 0 <= i < |s| - 1 && IsSpace(s[i]) ==> !IsSpace(s[i + 1]))
  }

  /** UTF-16 code units, the unit of `length`, `substring` and `charCodeAt`. */
  type CodeUnit = u: int | 0 <= u < 0x1_0000

  function Utf16(s: string): (r: seq<CodeUnit>)
    ensures |s| <= |r| <= 2 * |s|
  {
    if |s| == 0 then [] else CharUnits(s[0]) + Utf16(s[1..])
  }

  /** One character's code units: itself in the Basic Multilingual Plane,
      otherwise a high and a low surrogate. */
  function CharUnits(ch: char): (r: seq<CodeUnit>)
    ensures 1 <= |r| <= 2
  {
    var c := ch as int;
    if c < 0x1_0000 then [c as CodeUnit]
    else [(0xD800 + (c - 0x1_0000) / 0x400) as CodeUnit,
          (0xDC00 + (c - 0x1_0000) % 0x400) as CodeUnit]
  }

  /** Every character of `s` is a single UTF-16 code unit. */
  predicate IsBmp(s: string) {
    forall i :: 0 <= i < |s| ==> s[i] as int < 0x1_0000
  }

  // ---------------------------------------------------------------------
  // Facts about tokenisation
  // ---------------------------------------------------------------------

  /** `SplitEach` of a sequence concatenation glues the last piece of the
      first to the first piece of the second. */
  lemma {:induction false} SplitEachAppend(a: string, b: string)
    ensures SplitEach(a + b) == Glue(SplitEach(a), SplitEach(b))
  {
    if |a| == 0 {
      assert a + b == b;
      GlueEmpty(SplitEach(b));
    } else {
      assert (a + b)[1..] == a[1..] + b;
      SplitEachAppend(a[1..], b);
      if IsSpace(a[0]) {
        GlueSpace(SplitEach(a[1..]), SplitEach(b));
      } else {
        GluePrepend(a[0], SplitEach(a[1..]), SplitEach(b));
      }
    }
  }

  lemma GlueEmpty(B: seq<string>)
    requires |B| >= 1
    ensures Glue([""], B) == B
  {
    assert "" + B[0] == B[0];
    assert [B[0]] + B[1..] == B;
  }

  lemma GlueSpace(A: seq<string>, B: seq<string>)
    requires |A| >= 1 && |B| >= 1
    ensures Glue([""] + A, B) == [""] + Glue(A, B)
  {
    assert ([""] + A)[..|A|] == [""] + A[..|A| - 1];
  }

  lemma GluePrepend(c: char, A: seq<string>, B: seq<string>)
    requires |A| >= 1 && |B| >= 1
    ensures Glue(PrependChar(c, A), B) == PrependChar(c, Glue(A, B))
  {
    var G := Glue(A, B);
    if |A| == 1 {
      assert G == [A[0] + B[0]] + B[1..];
      assert G[1..] == B[1..];
      assert [c] + (A[0] + B[0]) == ([c] + A[0]) + B[0];
    } else {
      var P := PrependChar(c, A);
      assert P[..|P| - 1] == [[c] + A[0]] + A[1..|A| - 1];
      assert G[0] == A[0];
      assert G[1..] == A[1..|A| - 1] + [A[|A| - 1] + B[0]] + B[1..];
    }
  }

  lemma {:induction false} SplitEachWord(w: string)
    requires forall j :: 0 <= j < |w| ==> IsWordChar(w[j])
    ensures SplitEach(w) == [w]
  {
    if |w| > 0 {
      SplitEachWord(w[1..]);
      assert [w[0]] + w[1..] == w;
    }
  }

  /** `NonEmpty` keeps exactly the non-empty pieces. */
  lemma {:induction false} NonEmptyMembers(ws: seq<string>)
    ensures forall w :: w in NonEmpty(ws) <==> w in ws && |w| > 0
    decreases |ws|
  {
    if |ws| > 0 {
      NonEmptyMembers(ws[1..]);
      assert ws == [ws[0]] + ws[1..];
    }
  }

  lemma {:induction false} NonEmptyAppend(x: seq<string>, y: seq<string>)
    ensures NonEmpty(x + y) == NonEmpty(x) + NonEmpty(y)
  {
    if |x| == 0 {
      assert x + y == y;
    } else {
      assert (x + y)[1..] == x[1..] + y;
      NonEmptyAppend(x[1..], y);
    }
  }

  lemma TokensSpaceCons(c: char, s: string)
    requires IsSpace(c)
    ensures Tokens([c] + s) == Tokens(s)
  {
    assert ([c] + s)[1..] == s;
  }

  lemma TokensSpaceSnoc(s: string, c: char)
    requires IsSpace(c)
    ensures Tokens(s + [c]) == Tokens(s)
  {
    SplitEachAppend(s, [c]);
    assert [c][1..] == [];
    assert SplitEach([c]) == ["", ""];
    var S := SplitEach(s);
    assert S[|S| - 1] + "" == S[|S| - 1];
    assert S[..|S| - 1] + [S[|S| - 1]] == S;
    assert SplitEach(s + [c]) == S + [""];
    NonEmptyAppend(S, [""]);
  }

  lemma {:induction false} TokensTrimStart(s: string)
    ensures Tokens(TrimStart(s)) == Tokens(s)
    decreases |s|
  {
    if |s| > 0 && IsSpace(s[0]) {
      assert TrimStart(s) == TrimStart(s[1..]);
      TokensTrimStart(s[1..]);
      TokensSpaceCons(s[0], s[1..]);
      assert [s[0]] + s[1..] == s;
    }
  }

  lemma {:induction false} TokensTrimEnd(s: string)
    ensures Tokens(TrimEnd(s)) == Tokens(s)
    decreases |s|
  {
    if |s| > 0 && IsSpace(s[|s| - 1]) {
      var p := s[..|s| - 1];
      assert TrimEnd(s) == TrimEnd(p);
      TokensTrimEnd(p);
      TokensSpaceSnoc(p, s[|s| - 1]);
      assert p + [s[|s| - 1]] == s;
    } else {
      assert TrimEnd(s) == s;
    }
  }

  lemma TokensTrim(s: string)
    ensures Tokens(Trim(s)) == Tokens(s)
  {
    TokensTrimEnd(TrimStart(s));
    TokensTrimStart(s);
  }

  /** Collapsing whitespace runs changes neither the tokens nor the first piece. */
  lemma {:induction false} TokensReplaceRuns(s: string)
    ensures Tokens(ReplaceRuns(s, IsSpace, ' ')) == Tokens(s)
    ensures SplitEach(ReplaceRuns(s, IsSpace, ' '))[0] == SplitEach(s)[0]
    decreases |s|
  {
    var r := ReplaceRuns(s, IsSpace, ' ');
    if |s| == 0 {
    } else if IsSpace(s[0]) {
      var d := s[LeadRun(s, IsSpace)..];
      assert d == TrimStart(s);
      var rd := ReplaceRuns(d, IsSpace, ' ');
      assert r == [' '] + rd;
      TokensReplaceRuns(d);
      TokensSpaceCons(' ', rd);
      TokensTrimStart(s);
      assert r[1..] == rd;
    } else {
      var t := s[1..];
      var rt := ReplaceRuns(t, IsSpace, ' ');
      assert r == [s[0]] + rt;
      assert r[1..] == rt;
      TokensReplaceRuns(t);
      var X, Y := SplitEach(rt), SplitEach(t);
      assert SplitEach(r) == PrependChar(s[0], X);
      assert SplitEach(s) == PrependChar(s[0], Y);
      var P := if |X[0]| == 0 then [] else [X[0]];
      assert Tokens(rt) == P + NonEmpty(X[1..]);
      assert Tokens(t) == P + NonEmpty(Y[1..]);
      assert NonEmpty(X[1..]) == (P + NonEmpty(X[1..]))[|P|..];
      assert NonEmpty(Y[1..]) == (P + NonEmpty(Y[1..]))[|P|..];
      assert PrependChar(s[0], X)[1..] == X[1..];
      assert PrependChar(s[0], Y)[1..] == Y[1..];
    }
  }

  /** Splitting at maximal whitespace runs and dropping empty pieces
      (`split(/\s+/).filter(Boolean)`) gives exactly `Tokens`, and the two
      splits agree on the first piece. */
  lemma SplitRunsTokens(s: string)
    ensures NonEmpty(SplitRuns(s)) == Tokens(s)
    ensures SplitRuns(s)[0] == SplitEach(s)[0]
  {
    TokensReplaceRuns(s);
  }

  /** A normal string is the space-join of its own tokens. */
  lemma {:induction false} NormalIsJoinOfTokens(n: string)
    requires IsNormal(n)
    ensures Join(Tokens(n)) == n
    decreases |n|
  {
    var k := LeadRun(n, IsWordChar);
    if k == |n| {
      WordIsJoinOfTokens(n);
    } else {
      NormalSplit(n, k);
      var w, n' := n[..k], n[k + 1..];
      NormalIsJoinOfTokens(n');
      NormalStep(n, k, w, n');
    }
  }

  lemma WordIsJoinOfTokens(n: string)
    requires forall j :: 0 <= j < |n| ==> IsWordChar(n[j])
    ensures Join(Tokens(n)) == n
  {
    SplitEachWord(n);
    if |n| > 0 {
      assert NonEmpty([n]) == [n] + NonEmpty([]);
    }
  }

  lemma NormalStep(n: string, k: nat, w: string, n': string)
    requires 0 < k < |n| && n[k] == ' ' && w == n[..k] && n' == n[k + 1..]
    requires forall j :: 0 <= j < k ==> IsWordChar(n[j])
    requires |n'| > 0 && Join(Tokens(n')) == n'
    ensures Join(Tokens(n)) == n
  {
    assert n == w + ([' '] + n');
    TokensWordSpace(w, n');
    var T' := Tokens(n');
    assert |T'| > 0;
    JoinCons(w, T');
    assert w + " " + n' == w + ([' '] + n');
  }

  lemma JoinCons(w: string, ws: seq<string>)
    requires |ws| > 0
    ensures Join([w] + ws) == w + " " + Join(ws)
  {
    assert ([w] + ws)[1..] == ws;
  }

  lemma NormalSplit(n: string, k: nat)
    requires IsNormal(n) && k == LeadRun(n, IsWordChar) && k < |n|
    ensures 0 < k && k + 1 < |n| && n[k] == ' '
    ensures IsNormal(n[k + 1..])
  {
    var n' := n[k + 1..];
    forall i | 0 <= i < |n'| - 1 && IsSpace(n'[i])
      ensures !IsSpace(n'[i + 1])
    {
      assert n'[i] == n[k + 1 + i] && n'[i + 1] == n[k + 2 + i];
    }
    forall i | 0 <= i < |n'| && IsSpace(n'[i])
      ensures n'[i] == ' '
    {
      assert n'[i] == n[k + 1 + i];
    }
  }

  lemma TokensWordSpace(w: string, t: string)
    requires |w| > 0 && forall j :: 0 <= j < |w| ==> IsWordChar(w[j])
    ensures Tokens(w + ([' '] + t)) == [w] + Tokens(t)
  {
    SplitEachWord(w);
    SplitEachAppend(w, [' '] + t);
    assert ([' '] + t)[1..] == t;
    var T := SplitEach(t);
    assert SplitEach([' '] + t) == [""] + T;
    assert w + "" == w;
    assert Glue([w], [""] + T) == [w] + T;
    NonEmptyAppend([w], T);
  }

  // ---------------------------------------------------------------------
  // Facts about UTF-16 encoding and run replacement
  // ---------------------------------------------------------------------

  /** Encoding is a homomorphism: it works character by character. */
  lemma {:induction false} Utf16Append(a: string, b: string)
    ensures Utf16(a + b) == Utf16(a) + Utf16(b)
    decreases |a|
  {
    if |a| > 0 {
      assert (a + b)[0] == a[0] && (a + b)[1..] == a[1..] + b;
      Utf16Append(a[1..], b);
    } else {
      assert a + b == b;
    }
  }

  /** A string in the Basic Multilingual Plane encodes to its own code
      points, one unit each. */
  lemma {:induction false} Utf16Bmp(s: string)
    requires IsBmp(s)
    ensures |Utf16(s)| == |s|
    ensures forall i :: 0 <= i < |s| ==> Utf16(s)[i] == s[i] as int
    decreases |s|
  {
    if |s| > 0 {
      Utf16Bmp(s[1..]);
    }
  }

  /** Cutting a BMP string after `n` characters cuts its encoding after
      `n` units. */
  lemma Utf16BmpPrefix(s: string, n: nat)
    requires IsBmp(s) && n <= |s|
    ensures IsBmp(s[..n])
    ensures Utf16(s)[..n] == Utf16(s[..n])
  {
    Utf16Bmp(s);
    Utf16Bmp(s[..n]);
  }

  /** A class of code points outside the surrogate range that no character
      of `s` is in is a class that no unit of the encoding is in: surrogate
      halves lie in [0xD800, 0xE000). */
  lemma {:induction false} Utf16Avoids(s: string, bad: int -> bool)
    requires forall u :: bad(u) ==> u < 0xD800 || 0xE000 <= u
    requires forall i :: 0 <= i < |s| ==> !bad(s[i] as int)
    ensures forall k :: 0 <= k < |Utf16(s)| ==> !bad(Utf16(s)[k])
    decreases |s|
  {
    if |s| > 0 {
      Utf16Avoids(s[1..], bad);
    }
  }

  /** A maximal run of separators becomes one `repl`. */
  lemma ReplaceRunsRun<T>(run: seq<T>, rest: seq<T>, sep: T -> bool, repl: T)
    requires |run| > 0 && forall i :: 0 <= i < |run| ==> sep(run[i])
    requires |rest| == 0 || !sep(rest[0])
    ensures ReplaceRuns(run + rest, sep, repl) == [repl] + ReplaceRuns(rest, sep, repl)
  {
    var s := run + rest;
    assert s[0] == run[0];
    LeadRunOf(run, rest, sep);
    assert s[|run|..] == rest;
  }

  lemma {:induction false} LeadRunOf<T>(run: seq<T>, rest: seq<T>, sep: T -> bool)
    requires forall i :: 0 <= i < |run| ==> sep(run[i])
    requires |rest| == 0 || !sep(rest[0])
    ensures LeadRun(run + rest, sep) == |run|
    decreases |run|
  {
    if |run| > 0 {
      assert (run + rest)[1..] == run[1..] + rest;
      LeadRunOf(run[1..], rest, sep);
    } else {
      assert run + rest == rest;
    }
  }

  /** Characters other than separators are kept as they are. */
  lemma {:induction false} ReplaceRunsWord<T>(w: seq<T>, rest: seq<T>, sep: T -> bool, repl: T)
    requires forall i :: 0 <= i < |w| ==> !sep(w[i])
    ensures ReplaceRuns(w + rest, sep, repl) == w + ReplaceRuns(rest, sep, repl)
    decreases |w|
  {
    if |w| > 0 {
      assert (w + rest)[1..] == w[1..] + rest;
      ReplaceRunsWord(w[1..], rest, sep, repl);
      assert [w[0]] + (w[1..] + ReplaceRuns(rest, sep, repl)) == w + ReplaceRuns(rest, sep, repl);
    } else {
      assert w + rest == rest;
    }
  }
}
