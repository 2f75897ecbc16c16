/** Small shared vocabulary: optional values and sequence predicates. */
module Common {

  /** JavaScript's `T | null` (or `T | undefined`). */
  datatype Option<+T> = None | Some(value: T)

  /** `a` is obtained from `b` by deleting elements. */
  predicate IsSubsequence<T(==)>(a: seq<T>, b: seq<T>)
    decreases |b|
  {
    if |a| == 0 then true
    else if |b| == 0 then false
    else if a[0] == b[0] then IsSubsequence(a[1..], b[1..])
    else IsSubsequence(a, b[1..])
  }

  /** Putting an element in front keeps a subsequence a subsequence. */
  lemma SubsequenceSkip<T>(a: seq<T>, c: T, b: seq<T>)
    requires IsSubsequence(a, b)
    ensures IsSubsequence(a, [c] + b)
    decreases |b|, 1
  {
    assert ([c] + b)[1..] == b;
    if |a| > 0 && a[0] == c {
      SubsequenceTail(a, b);
    }
  }

  lemma SubsequenceTail<T>(a: seq<T>, b: seq<T>)
    requires |a| > 0 && IsSubsequence(a, b)
    ensures IsSubsequence(a[1..], b)
    decreases |b|, 0
  {
    assert [b[0]] + b[1..] == b;
    if a[0] == b[0] {
      SubsequenceSkip(a[1..], b[0], b[1..]);
    } else {
      SubsequenceTail(a, b[1..]);
      SubsequenceSkip(a[1..], b[0], b[1..]);
    }
  }

  /** Decimal rendering of a natural number, as JavaScript's `${n}` prints it. */
  function NatToString(n: nat): (r: string)
    ensures |r| > 0
    ensures forall i :: 0 <= i < |r| ==> '0' <= r[i] <= '9'
    ensures n < 10 ==> r == [('0' as int + n) as char]
  {
    if n < 10 then [('0' as int + n) as char]
    else NatToString(n / 10) + [('0' as int + n % 10) as char]
  }

  /** Euclidean division has one quotient and one remainder. */
  lemma DivModUnique(a: int, m: int, q: int, r: int)
    requires m > 0 && 0 <= r < m && a == q * m + r
    ensures a % m == r && a / m == q
  {
    var q' := a / m;
    var r' := a % m;
    assert a == q' * m + r';
    if q' > q {
      assert (q' - q) * m == q' * m - q * m;
      MulAtLeast(q' - q, m);
      assert false;
    } else if q' < q {
      assert (q - q') * m == q * m - q' * m;
      MulAtLeast(q - q', m);
      assert false;
    }
  }

  lemma MulAtLeast(d: int, m: int)
    requires d >= 1 && m > 0
    ensures d * m >= m
  {
    assert d * m == (d - 1) * m + m;
  }
}
