/** The seeded confetti burst: a string seed is hashed to 32 bits, a
    mulberry32 generator is started from the hash, and every piece of the
    burst takes nine draws from it. */
module Confetti {
  import opened Common
  import opened JsText

  const Two32: int := 0x1_0000_0000
  const Two31: int := 0x8000_0000

  type Uint32 = x: int | 0 <= x < 0x1_0000_0000

  /** ECMAScript `ToInt32`: the representative of `x` modulo 2^32 in
      [-2^31, 2^31). */
  function ToInt32(x: int): (r: int)
    ensures -Two31 <= r < Two31
    ensures r % Two32 == x % Two32
  {
    var m := x % Two32;
    if m >= Two31 then m - Two32 else m
  }

  // ---------------------------------------------------------------------
  // hashSeed
  // ---------------------------------------------------------------------

  /** The rolling hash `h := 31 * h + unit (mod 2^32)` from 0, over the
      UTF-16 code units. */
  function HashFold(units: seq<CodeUnit>): (h: Uint32)
  {
    if |units| == 0 then 0
    else (31 * HashFold(units[..|units| - 1]) + units[|units| - 1]) % Two32
  }

  /** `hashSeed(value)`, read off the fold. */
  function HashSeed(value: string): Uint32 {
    HashFold(Utf16(value))
  }

  /** One step of the loop on the signed 32-bit accumulator:
      `hash = (hash << 5) - hash + unit; hash |= 0`. */
  function HashStep(hash: int, unit: CodeUnit): (r: int)
    ensures -Two31 <= r < Two31
  {
    ToInt32(ToInt32(hash * 32) - hash + unit)
  }

  /** The signed step agrees with the unsigned fold modulo 2^32. */
  lemma HashStepMod(hash: int, unit: CodeUnit)
    ensures HashStep(hash, unit) % Two32 == (31 * (hash % Two32) + unit) % Two32
  {
    var a := ToInt32(hash * 32);
    var q := hash / Two32;
    assert hash == q * Two32 + hash % Two32;
    ModShift(a, hash * 32, unit - hash);
    assert hash * 32 - hash + unit == 31 * (hash % Two32) + unit + (31 * q) * Two32;
    ModMultiple(31 * (hash % Two32) + unit, 31 * q);
  }

  lemma ModShift(a: int, b: int, c: int)
    requires a % Two32 == b % Two32
    ensures (a + c) % Two32 == (b + c) % Two32
  {
    var qa, qb := a / Two32, b / Two32;
    assert a == qa * Two32 + a % Two32;
    assert b == qb * Two32 + b % Two32;
    ModMultiple(b + c, qa - qb);
    assert a + c == (b + c) + (qa - qb) * Two32;
  }

  lemma ModMultiple(x: int, k: int)
    ensures (x + k * Two32) % Two32 == x % Two32
  {
  }

  /** The loop of `hashSeed` as written, on the signed accumulator, ending
      with `hash >>> 0`: it computes the fold. */
  method HashSeedLoop(value: string) returns (h: Uint32)
    ensures h == HashSeed(value)
    ensures |value| == 0 ==> h == 0
  {
    var units := Utf16(value);
    var hash := 0;
    var index := 0;
    while index < |units|
      invariant 0 <= index <= |units|
      invariant hash % Two32 == HashFold(units[..index])
    {
      assert units[..index + 1][..index] == units[..index];
      HashStepMod(hash, units[index]);
      hash := HashStep(hash, units[index]);
      index := index + 1;
    }
    assert units[..index] == units;
    h := hash % Two32;
  }

  // ---------------------------------------------------------------------
  // createGenerator
  // ---------------------------------------------------------------------

  datatype Generator = Generator(state: Uint32)

  /** `createGenerator(seedValue)`: a zero seed is replaced with 1. */
  function CreateGenerator(seedValue: Uint32): (g: Generator)
    ensures g.state != 0
    ensures seedValue != 0 ==> g.state == seedValue
  {
    Generator(if seedValue == 0 then 1 else seedValue)
  }

  // ---------------------------------------------------------------------
  // 32-bit word operations, on the unsigned representative in [0, 2^32)
  // ---------------------------------------------------------------------

  function Pow2(k: nat): (r: nat)
    ensures r > 0
  {
    if k == 0 then 1 else 2 * Pow2(k - 1)
  }

  lemma Pow2Word()
    ensures Pow2(32) == Two32
  {
    assert Pow2(8) == 256;
    Pow2Add(8, 8);
    Pow2Add(16, 16);
  }

  lemma {:induction false} Pow2Add(a: nat, b: nat)
    ensures Pow2(a + b) == Pow2(a) * Pow2(b)
    decreases a
  {
    if a > 0 {
      Pow2Add(a - 1, b);
    }
  }

  /** Exclusive or of the low `k` bits of `a` and `b`. */
  function XorBits(a: nat, b: nat, k: nat): (r: nat)
    ensures r < Pow2(k)
  {
    if k == 0 then 0 else (a + b) % 2 + 2 * XorBits(a / 2, b / 2, k - 1)
  }

  /** Inclusive or of the low `k` bits of `a` and `b`. */
  function OrBits(a: nat, b: nat, k: nat): (r: nat)
    ensures r < Pow2(k)
  {
    if k == 0 then 0
    else (if a % 2 == 1 || b % 2 == 1 then 1 else 0) + 2 * OrBits(a / 2, b / 2, k - 1)
  }

  /** `a` times the low `k` bits of `b`, modulo 2^32, by shift and add. */
  function MulBits(a: nat, b: nat, k: nat): (r: Uint32)
  {
    if k == 0 then 0
    else ((if b % 2 == 1 then a else 0) + 2 * MulBits(a, b / 2, k - 1)) % Two32
  }

  /** `a ^ b`. */
  function Xor(a: Uint32, b: Uint32): Uint32 {
    Pow2Word();
    XorBits(a, b, 32)
  }

  /** `a | b`. */
  function Or(a: Uint32, b: Uint32): Uint32 {
    Pow2Word();
    OrBits(a, b, 32)
  }

  /** `Math.imul(a, b)`: the low 32 bits of the product. */
  function Imul(a: Uint32, b: Uint32): Uint32 {
    MulBits(a, b, 32)
  }

  /** `a >>> n`. */
  function Shr(a: Uint32, n: nat): (r: Uint32)
    ensures r <= a
  {
    if n == 0 then a else Shr(a / 2, n - 1)
  }

  /** Exclusive or with the same `b` twice gives back the low `k` bits of
      `a`. */
  lemma {:induction false} XorBitsCancel(a: nat, b: nat, k: nat)
    ensures XorBits(XorBits(a, b, k), b, k) == a % Pow2(k)
    decreases k
  {
    if k > 0 {
      var x := XorBits(a, b, k);
      var rest := XorBits(a / 2, b / 2, k - 1);
      DivModUnique(x, 2, rest, (a + b) % 2);
      XorBitsCancel(a / 2, b / 2, k - 1);
      ParityCancel(a, b, x);
      XorCancelStep(a, b, k, x);
    }
  }

  lemma XorCancelStep(a: nat, b: nat, k: nat, x: nat)
    requires k > 0 && (x + b) % 2 == a % 2
    requires XorBits(x / 2, b / 2, k - 1) == (a / 2) % Pow2(k - 1)
    ensures XorBits(x, b, k) == a % Pow2(k)
  {
    LowBits(a, k);
  }

  lemma ParityCancel(a: nat, b: nat, x: nat)
    requires x % 2 == (a + b) % 2
    ensures (x + b) % 2 == a % 2
  {
    DivModUnique(a + b, 2, a / 2 + b / 2 + (a % 2 + b % 2) / 2, (a + b) % 2);
  }

  /** `(a ^ b) ^ b == a`: the second mixing round can be undone. */
  lemma XorCancel(a: Uint32, b: Uint32)
    ensures Xor(Xor(a, b), b) == a
  {
    XorBitsCancel(a, b, 32);
    Pow2Word();
    DivModUnique(a, Two32, 0, a);
  }

  /** `Math.imul` is the product modulo 2^32. */
  lemma ImulIsProduct(a: Uint32, b: Uint32)
    ensures Imul(a, b) == (a * b) % Two32
  {
    MulBitsProduct(a, b, 32);
    Pow2Word();
    DivModUnique(b, Two32, 0, b);
  }

  lemma {:induction false} MulBitsProduct(a: nat, b: nat, k: nat)
    ensures MulBits(a, b, k) == (a * (b % Pow2(k))) % Two32
    decreases k
  {
    if k > 0 {
      MulBitsProduct(a, b / 2, k - 1);
      LowBits(b, k);
      MulBitsStep(a, b % 2, (b / 2) % Pow2(k - 1), MulBits(a, b / 2, k - 1));
    }
  }

  /** One shift-and-add step of `MulBits`, modulo 2^32. */
  lemma MulBitsStep(a: nat, bit: nat, r: nat, m: nat)
    requires bit <= 1 && m == (a * r) % Two32
    ensures ((if bit == 1 then a else 0) + 2 * m) % Two32 == (a * (bit + 2 * r)) % Two32
  {
    var y := a * r;
    assert y == (y / Two32) * Two32 + m;
    assert a * (bit + 2 * r) == bit * a + 2 * y;
    assert (if bit == 1 then a else 0) == bit * a;
    assert bit * a + 2 * y == (bit * a + 2 * m) + (2 * (y / Two32)) * Two32;
    ModMultiple(bit * a + 2 * m, 2 * (y / Two32));
  }

  /** The low k bits of b: its lowest bit, then the low k - 1 bits of b / 2. */
  lemma LowBits(b: nat, k: nat)
    requires k > 0
    ensures b % Pow2(k) == b % 2 + 2 * ((b / 2) % Pow2(k - 1))
  {
    HalveDivMod(b, Pow2(k - 1));
  }

  /** Dividing by 2 and then by P is dividing by 2P, with the remainders
      combined. */
  lemma HalveDivMod(b: nat, P: nat)
    requires P > 0
    ensures b / (2 * P) == (b / 2) / P
    ensures b % (2 * P) == b % 2 + 2 * ((b / 2) % P)
  {
    var q := (b / 2) / P;
    var r := (b / 2) % P;
    assert b / 2 == q * P + r;
    assert b == 2 * (b / 2) + b % 2;
    assert 2 * (q * P) == q * (2 * P);
    assert b == q * (2 * P) + (2 * r + b % 2);
    DivModUnique(b, 2 * P, q, 2 * r + b % 2);
  }

  /** `a >>> n` is the quotient by 2^n. */
  lemma {:induction false} ShrIsQuotient(a: Uint32, n: nat)
    ensures Shr(a, n) == a / Pow2(n)
    decreases n
  {
    if n > 0 {
      ShrIsQuotient(a / 2, n - 1);
      HalveDivMod(a, Pow2(n - 1));
    }
  }

  /** The mulberry32 output mixing of a state. The intermediate values are
      kept as their representatives modulo 2^32: every operation involved
      (`Math.imul`, `^`, `|`, `>>>`, and the `^` that truncates the sum
      `t + Math.imul(...)`) depends only on its operands modulo 2^32. */
  function Mix(s: Uint32): Uint32 {
    var t := Imul(Xor(s, Shr(s, 15)), Or(1, s));
    var t' := Xor((t + Imul(Xor(t, Shr(t, 7)), Or(61, t))) % Two32, t);
    Xor(t', Shr(t', 14))
  }

  /** A draw `u / 2^32` of a 32-bit word. */
  function Unit(u: Uint32): (r: real)
    ensures 0.0 <= r < 1.0
  {
    u as real / 4294967296.0
  }

  /** The state update of one call, `seed += 0x6d2b79f5; seed >>>= 0`. */
  function Step(g: Generator): (r: Generator)
    ensures r.state == (g.state + 0x6d2b79f5) % Two32
  {
    Generator((g.state + 0x6d2b79f5) % Two32)
  }

  /** The value a call returns once the state has been updated. */
  function Output(g: Generator): (r: real)
    ensures 0.0 <= r < 1.0
  {
    Unit(Mix(g.state))
  }

  /** The generator after `k` calls. */
  function Advance(g: Generator, k: nat): Generator
    decreases k
  {
    if k == 0 then g else Step(Advance(g, k - 1))
  }

  /** `k` calls move the state `k` increments of `0x6d2b79f5` round the
      32-bit ring. */
  lemma {:induction false} AdvanceClosedForm(g: Generator, k: nat)
    ensures Advance(g, k).state == (g.state + k * 0x6d2b79f5) % Two32
    decreases k
  {
    if k == 0 {
      DivModUnique(g.state, Two32, 0, g.state);
    } else {
      AdvanceClosedForm(g, k - 1);
      var x := g.state + (k - 1) * 0x6d2b79f5;
      DivModUnique(x % Two32, Two32, 0, x % Two32);
      ModShift(x % Two32, x, 0x6d2b79f5);
    }
  }

  /** The generators after each of `n` successive calls, and the last. */
  function States(g: Generator, n: nat): (r: (seq<Generator>, Generator))
    ensures |r.0| == n
    decreases n
  {
    if n == 0 then ([], g)
    else
      var g' := Step(g);
      var rest := States(g', n - 1);
      ([g'] + rest.0, rest.1)
  }

  /** The values the calls return, one per generator reached. */
  function Values(states: seq<Generator>): (r: seq<real>)
    ensures |r| == |states|
    ensures forall i :: 0 <= i < |r| ==> 0.0 <= r[i] < 1.0
  {
    seq(|states|, i requires 0 <= i < |states| => Output(states[i]))
  }

  /** `n` successive calls: the values returned, and the generator after
      them. */
  function Draws(g: Generator, n: nat): (r: (seq<real>, Generator))
    ensures |r.0| == n
    ensures forall i :: 0 <= i < n ==> 0.0 <= r.0[i] < 1.0
  {
    var st := States(g, n);
    (Values(st.0), st.1)
  }

  /** Running `n + m` calls is running `n` and then `m` more from where
      the first `n` left the generator. */
  lemma {:induction false} StatesSplit(g: Generator, n: nat, m: nat)
    ensures States(g, n + m).0 == States(g, n).0 + States(States(g, n).1, m).0
    ensures States(g, n + m).1 == States(States(g, n).1, m).1
    decreases n
  {
    if n > 0 {
      var g' := Step(g);
      StatesSplit(g', n - 1, m);
      var head, tail := States(g', n - 1), States(g', n - 1 + m);
      assert States(g, n) == ([g'] + head.0, head.1);
      assert States(g, n + m) == ([g'] + tail.0, tail.1);
      assert [g'] + (head.0 + States(head.1, m).0) == ([g'] + head.0) + States(head.1, m).0;
    } else {
      assert States(g, n) == ([], g);
    }
  }

  lemma ValuesAppend(a: seq<Generator>, b: seq<Generator>)
    ensures Values(a + b) == Values(a) + Values(b)
  {
  }

  /** Drawing `n + m` values is drawing `n` and then `m` more. */
  lemma DrawsSplit(g: Generator, n: nat, m: nat)
    ensures Draws(g, n + m).0 == Draws(g, n).0 + Draws(Draws(g, n).1, m).0
    ensures Draws(g, n + m).1 == Draws(Draws(g, n).1, m).1
  {
    StatesSplit(g, n, m);
    ValuesAppend(States(g, n).0, States(States(g, n).1, m).0);
  }

  /** The `k`-th call leaves the generator advanced `k + 1` times, and `n`
      calls leave it advanced `n` times. */
  lemma {:induction false} StatesAdvance(g: Generator, n: nat)
    ensures States(g, n).1 == Advance(g, n)
    ensures forall k :: 0 <= k < n ==> States(g, n).0[k] == Advance(g, k + 1)
    decreases n
  {
    if n > 0 {
      StatesAdvance(Step(g), n - 1);
      AdvanceFirst(g, n - 1);
      forall k | 1 <= k < n ensures States(g, n).0[k] == Advance(g, k + 1) {
        AdvanceFirst(g, k);
      }
    }
  }

  /** The `k`-th value drawn is the output of the generator advanced `k + 1`
      times. */
  lemma DrawsAdvance(g: Generator, n: nat)
    ensures Draws(g, n).1 == Advance(g, n)
    ensures forall k :: 0 <= k < n ==> Draws(g, n).0[k] == Output(Advance(g, k + 1))
  {
    StatesAdvance(g, n);
  }

  lemma {:induction false} AdvanceFirst(g: Generator, k: nat)
    ensures Advance(Step(g), k) == Advance(g, k + 1)
    decreases k
  {
    if k > 0 {
      AdvanceFirst(g, k - 1);
    }
  }

  // ---------------------------------------------------------------------
  // createConfettiPieces
  // ---------------------------------------------------------------------

  /** `CONFETTI_COLORS`. */
  const Palette: seq<string> := ["#facc15", "#f97316", "#22d3ee", "#38bdf8", "#a855f7", "#34d399", "#f472b6"]

  const DefaultPieceCount: nat := 140

  datatype ConfettiPiece = ConfettiPiece(
    id: nat, left: real, delay: real, duration: real, width: real, height: real,
    color: string, drift: real, rotateStart: real, rotateEnd: real)

  /** The ranges every piece's fields fall in. */
  predicate InBounds(p: ConfettiPiece) {
    && 6.0 <= p.width < 14.0
    && 1.4 * p.width <= p.height < 2.0 * p.width
    && 0.0 <= p.rotateStart < 360.0
    && -450.0 <= p.rotateEnd - p.rotateStart < 450.0
    && p.color in Palette
    && 0.0 <= p.delay < 160.0
    && 2400.0 <= p.duration < 3800.0
    && 0.0 <= p.left < 100.0
    && -21.0 <= p.drift < 21.0
  }

  function ColorIndex(r: real): (k: int)
    requires 0.0 <= r < 1.0
    ensures 0 <= k < |Palette|
  {
    (r * 7.0).Floor
  }

  /** One piece from its nine draws, taken in the order width, height
      factor, rotation start, rotation delta, colour, delay, duration, left
      position, drift. */
  function MakePiece(id: nat, r: seq<real>): (p: ConfettiPiece)
    requires |r| == 9 && forall i :: 0 <= i < 9 ==> 0.0 <= r[i] < 1.0
    ensures p.id == id && InBounds(p)
  {
    var width := 6.0 + r[0] * 8.0;
    var height := width * (1.4 + r[1] * 0.6);
    var rotateStart := r[2] * 360.0;
    var rotateEnd := rotateStart + (r[3] - 0.5) * 900.0;
    assert width * (1.4 + r[1] * 0.6) == 1.4 * width + (r[1] * 0.6) * width;
    assert (r[1] * 0.6) * width < 0.6 * width by {
      assert r[1] * width < width;
    }
    ConfettiPiece(id, r[7] * 100.0, r[5] * 160.0, 2400.0 + r[6] * 1400.0, width, height,
                  Palette[ColorIndex(r[4])], (r[8] - 0.5) * 42.0, rotateStart, rotateEnd)
  }

  /** The draws cut into runs of nine in call order, one run per piece; a
      short tail of fewer than nine draws is unused. */
  function Chunks(draws: seq<real>): (r: seq<seq<real>>)
    requires forall i :: 0 <= i < |draws| ==> 0.0 <= draws[i] < 1.0
    ensures |r| == |draws| / 9
    ensures forall k :: 0 <= k < |r| ==> |r[k]| == 9
    ensures forall k, j :: 0 <= k < |r| && 0 <= j < |r[k]| ==> 0.0 <= r[k][j] < 1.0
    decreases |draws|
  {
    if |draws| < 9 then []
    else [draws[..9]] + Chunks(draws[9..])
  }

  /** Run `k` is draws `9k` to `9k + 8`. */
  lemma {:induction false} ChunksOfDraws(draws: seq<real>, k: nat)
    requires forall i :: 0 <= i < |draws| ==> 0.0 <= draws[i] < 1.0
    requires k < |draws| / 9
    ensures 9 * k + 9 <= |draws|
    ensures Chunks(draws)[k] == draws[9 * k .. 9 * k + 9]
    decreases k
  {
    if k > 0 {
      ChunksOfDraws(draws[9..], k - 1);
      assert draws[9..][9 * (k - 1) .. 9 * (k - 1) + 9] == draws[9 * k .. 9 * k + 9];
    }
  }

  /** `createConfettiPieces(seed, count)`: the callback of `Array.from` runs
      once per index in order and calls the generator nine times, so piece
      `i` is numbered `i` and takes calls `9i` to `9i + 8` of the generator
      seeded from the hash. */
  function CreateConfettiPieces(seed: string, count: nat): (r: seq<ConfettiPiece>)
    ensures |r| == count
  {
    var chunks := Chunks(Draws(CreateGenerator(HashSeed(seed)), 9 * count).0);
    seq(count, i requires 0 <= i < count => MakePiece(i, chunks[i]))
  }

  /** Piece `i` of the burst has id `i` and every field in its range. */
  lemma ConfettiPiecesInBounds(seed: string, count: nat, i: nat)
    requires i < count
    ensures var p := CreateConfettiPieces(seed, count)[i];
            p.id == i && InBounds(p)
  {
    var chunks := Chunks(Draws(CreateGenerator(HashSeed(seed)), 9 * count).0);
    assert CreateConfettiPieces(seed, count)[i] == MakePiece(i, chunks[i]);
  }

  /** Piece `i` of the burst is made from draws `9i` to `9i + 8` of the
      seeded generator. */
  lemma ConfettiPiecesShape(seed: string, count: nat, i: nat)
    requires i < count
    ensures var g := CreateGenerator(HashSeed(seed));
            CreateConfettiPieces(seed, count)[i] == MakePiece(i, Draws(Advance(g, 9 * i), 9).0)
  {
    DrawsWindow(CreateGenerator(HashSeed(seed)), 9 * i, 9, 9 * count);
    ChunksOfDraws(Draws(CreateGenerator(HashSeed(seed)), 9 * count).0, i);
  }

  /** Draws `a` to `a + n - 1` of a longer run are the `n` draws of the
      generator advanced `a` times. */
  lemma DrawsWindow(g: Generator, a: nat, n: nat, total: nat)
    requires a + n <= total
    ensures Draws(g, total).0[a .. a + n] == Draws(Advance(g, a), n).0
  {
    StatesWindow(g, a, n, total);
    assert Values(States(g, total).0)[a .. a + n] == Values(States(g, total).0[a .. a + n]);
  }

  lemma StatesWindow(g: Generator, a: nat, n: nat, total: nat)
    requires a + n <= total
    ensures States(g, total).0[a .. a + n] == States(Advance(g, a), n).0
  {
    StatesSplit(g, a + n, total - (a + n));
    assert a + n + (total - (a + n)) == total;
    StatesSplit(g, a, n);
    StatesAdvance(g, a);
    assert States(g, total).0[..a + n] == States(g, a + n).0;
    assert States(g, a + n).0[a..] == States(Advance(g, a), n).0;
  }
}
