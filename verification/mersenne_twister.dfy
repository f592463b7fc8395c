/** The integer part of `CustomMersenneTwister` in `lab3/main.py`, the
    MT19937 generator of Matsumoto and Nishimura.

    The state is 624 words held as Python integers and an index `mti`.
    Every word the source stores is masked to 32 bits or built from such
    words with `&`, `|`, `^` and `>>`, so the words are `bv32` here; those
    operators agree with Python's unbounded ones on values below 2^32, and
    so does `(x << k) & mask` when the mask has only the low 32 bits.  The
    seeding product is taken on unbounded integers and then reduced, as in
    Python.  `random()` divides the tempered word by `0xFFFFFFFF`; the model
    returns the tempered word itself.
 */
module MersenneTwister {

  const N: nat := 624
  const M: nat := 397
  const MatrixA: bv32 := 0x9908B0DF
  const UpperMask: bv32 := 0x8000_0000
  const LowerMask: bv32 := 0x7FFF_FFFF
  const WordModulus: nat := 0x1_0000_0000
  // ---------------------------------------------------------------------
  // seed_mt

  predicate IsWord(x: int) {
    0 <= x < WordModulus
  }

  /** Python's `a ^ b` for `a, b` in `0 .. 3`, bit by bit. */
  function Xor2(a: int, b: int): (r: int)
    requires 0 <= a < 4 && 0 <= b < 4
    ensures 0 <= r < 4
    ensures r % 2 == (a + b) % 2 && r / 2 == (a / 2 + b / 2) % 2
  {
    if a == 0 then b
    else if b == 0 then a
    else if a == b then 0
    else 6 - a - b
  }

  /** `x ^ (x >> 30)` for a word `x`: the shifted value has only two bits,
      so only the two low bits of `x` change. */
  function XorShift30(x: int): (r: int)
    requires IsWord(x)
    ensures IsWord(r)
    ensures r / 4 == x / 4
  {
    x - x % 4 + Xor2(x % 4, x / 0x4000_0000)
  }

  /** One step of the seeding recurrence: the product is taken on unbounded
      integers and then masked to 32 bits. */
  function SeedNext(prev: int, i: int): (r: int)
    requires IsWord(prev)
    ensures IsWord(r)
  {
    (1812433253 * XorShift30(prev) + i) % WordModulus
  }

  /** The first `n` words `seed_mt(seed)` writes. */
  function SeedWords(seed: int, n: nat): (r: seq<int>)
    requires n >= 1
    ensures |r| == n
    ensures forall i :: 0 <= i < n ==> IsWord(r[i])
    ensures r[0] == seed % WordModulus
    ensures forall i :: 1 <= i < n ==> r[i] == SeedNext(r[i - 1], i)
  {
    if n == 1 then [seed % WordModulus]
    else
      var r := SeedWords(seed, n - 1);
      r + [SeedNext(r[n - 2], n - 1)]
  }

  /** `seed_mt(seed)`: `mt[0]` is the seed masked to 32 bits (Python's `&`
      on a negative seed takes it modulo 2^32), every word is below 2^32, and
      every later word follows from the one before. */
  function SeedMt(seed: int): (mt: seq<int>)
    ensures |mt| == N
    ensures forall i :: 0 <= i < N ==> IsWord(mt[i])
    ensures mt[0] == seed % WordModulus
  {
    SeedWords(seed, N)
  }

  /** Two seeds give the same state exactly when they agree modulo 2^32. */
  lemma SeedMtDependsOnLowBits(a: int, b: int)
    ensures SeedMt(a) == SeedMt(b) <==> a % WordModulus == b % WordModulus
  {
    if a % WordModulus == b % WordModulus {
      SeedWordsDependOnLowBits(a, b, N);
    }
  }

  lemma {:induction false} SeedWordsDependOnLowBits(a: int, b: int, n: nat)
    requires n >= 1 && a % WordModulus == b % WordModulus
    ensures SeedWords(a, n) == SeedWords(b, n)
  {
    if n > 1 {
      SeedWordsDependOnLowBits(a, b, n - 1);
    }
  }

  /** The seeded words as 32-bit words. */
  function ToWords(mt: seq<int>): (r: seq<bv32>)
    requires forall i :: 0 <= i < |mt| ==> IsWord(mt[i])
    ensures |r| == |mt|
  {
    seq(|mt|, i requires 0 <= i < |mt| => assert IsWord(mt[i]); mt[i] as bv32)
  }

  // ---------------------------------------------------------------------
  // twist

  /** The new value of `mt[i]`: the top bit of the current word and the
      low 31 bits of the next one, shifted right, xored into the word `M`
      places on, and xored with `MATRIX_A` when the combined word is odd. */
  function TwistWord(cur: bv32, next: bv32, far: bv32): bv32 {
    var y := (cur & UpperMask) | (next & LowerMask);
    var v := far ^ (y >> 1);
    if y % 2 != 0 then v ^ MatrixA else v
  }

  /** `twist` updates the list in place, so the last word reads the new
      `mt[0]` as its neighbour, and the words from 227 on read the new words
      `M - N` places back. */
  predicate TwistedFrom(prev: seq<bv32>, r: seq<bv32>)
    requires |prev| == N && |r| == N
  {
    forall i {:trigger r[i]} :: 0 <= i < N ==>
      r[i] == TwistWord(prev[i], if i + 1 < N then prev[i + 1] else r[0],
                        if i + M < N then prev[i + M] else r[i + M - N])
  }

  /** `twist()` on the word list. */
  method Twist(mt: seq<bv32>) returns (r: seq<bv32>)
    requires |mt| == N
    ensures |r| == N
    ensures TwistedFrom(mt, r)
  {
    r := mt;
    var i := 0;
    while i < N
      invariant 0 <= i <= N
      invariant TwistedUpTo(mt, r, i)
    {
      var w := TwistWord(r[i], r[(i + 1) % N], r[(i + M) % N]);
      TwistStep(mt, r, i);
      r := r[i := w];
      i := i + 1;
    }
    TwistedUpToAll(mt, r);
  }

  /** Word `j` of `r` is the twist of the old word `j` with its neighbour
      and the word `M` on, as the in-place loop reads them. */
  ghost predicate RewrittenAt(mt: seq<bv32>, r: seq<bv32>, j: nat)
    requires |mt| == N && |r| == N && j < N
  {
    r[j] == TwistWord(mt[j], if j + 1 < N then mt[j + 1] else r[0],
                      if j + M < N then mt[j + M] else r[j + M - N])
  }

  /** The loop invariant of `twist`: the words before `i` are rewritten,
      the rest are still the old ones. */
  ghost predicate TwistedUpTo(mt: seq<bv32>, r: seq<bv32>, i: nat)
    requires |mt| == N
  {
    && |r| == N && i <= N
    && (forall j :: i <= j < N ==> r[j] == mt[j])
    && (forall j :: 0 <= j < i ==> RewrittenAt(mt, r, j))
  }

  /** One round of the loop rewrites word `i` from its neighbours as they
      stand, which are the old words ahead and the new ones behind. */
  lemma TwistStep(mt: seq<bv32>, r: seq<bv32>, i: nat)
    requires |mt| == N && i < N && TwistedUpTo(mt, r, i)
    ensures TwistedUpTo(mt, r[i := TwistWord(r[i], r[(i + 1) % N], r[(i + M) % N])], i + 1)
  {
    var r' := r[i := TwistWord(r[i], r[(i + 1) % N], r[(i + M) % N])];
    forall j | 0 <= j < i ensures RewrittenAt(mt, r', j) {
      RewrittenKept(mt, r, r', i, j);
    }
    RewrittenNew(mt, r, i);
  }

  /** Rewriting word `i` leaves the earlier rewritten words rewritten: the
      words they read lie before `i` or are old words after it. */
  lemma RewrittenKept(mt: seq<bv32>, r: seq<bv32>, r': seq<bv32>, i: nat, j: nat)
    requires |mt| == N && |r| == N && j < i < N && RewrittenAt(mt, r, j)
    requires |r'| == N && forall k :: 0 <= k < N && k != i ==> r'[k] == r[k]
    ensures RewrittenAt(mt, r', j)
  {
    assert r'[j] == r[j];
    if j + M >= N {
      assert r'[j + M - N] == r[j + M - N];
    }
  }

  lemma RewrittenNew(mt: seq<bv32>, r: seq<bv32>, i: nat)
    requires |mt| == N && i < N && TwistedUpTo(mt, r, i)
    ensures RewrittenAt(mt, r[i := TwistWord(r[i], r[(i + 1) % N], r[(i + M) % N])], i)
  {
    var next := r[(i + 1) % N];
    var far := r[(i + M) % N];
    var r' := r[i := TwistWord(r[i], next, far)];
    assert r[i] == mt[i];
    assert next == if i + 1 < N then mt[i + 1] else r'[0];
    assert far == if i + M < N then mt[i + M] else r'[i + M - N];
  }

  /** When the loop ends every word is rewritten. */
  lemma TwistedUpToAll(mt: seq<bv32>, r: seq<bv32>)
    requires |mt| == N && TwistedUpTo(mt, r, N)
    ensures TwistedFrom(mt, r)
  {
    forall j {:trigger r[j]} | 0 <= j < N
      ensures r[j] == TwistWord(mt[j], if j + 1 < N then mt[j + 1] else r[0],
                                if j + M < N then mt[j + M] else r[j + M - N])
    {
      assert RewrittenAt(mt, r, j);
    }
  }

  /** The in-place recurrence leaves no freedom: one word list can be
      twisted in only one way. */
  lemma TwistedFromIsUnique(prev: seq<bv32>, r1: seq<bv32>, r2: seq<bv32>)
    requires |prev| == N && |r1| == N && |r2| == N
    requires TwistedFrom(prev, r1) && TwistedFrom(prev, r2)
    ensures r1 == r2
  {
    var i := 0;
    while i < N
      invariant 0 <= i <= N
      invariant forall j :: 0 <= j < i ==> r1[j] == r2[j]
    {
      var next1, next2 := if i + 1 < N then prev[i + 1] else r1[0], if i + 1 < N then prev[i + 1] else r2[0];
      var far1, far2 := if i + M < N then prev[i + M] else r1[i + M - N], if i + M < N then prev[i + M] else r2[i + M - N];
      assert r1[i] == TwistWord(prev[i], next1, far1);
      assert r2[i] == TwistWord(prev[i], next2, far2);
      assert next1 == next2 && far1 == far2;
      i := i + 1;
    }
  }

  // ---------------------------------------------------------------------
  // Tempering

  /** The four tempering steps of `random()`. */
  function Temper(y: bv32): bv32 {
    var y1 := y ^ (y >> 11);
    var y2 := y1 ^ ((y1 << 7) & 0x9D2C_5680);
    var y3 := y2 ^ ((y2 << 15) & 0xEFC6_0000);
    y3 ^ (y3 >> 18)
  }

  // ---------------------------------------------------------------------
  // The generator

  datatype Generator = Generator(mt: seq<bv32>, mti: int)

  predicate Valid(g: Generator) {
    |g.mt| == N && 0 <= g.mti <= N + 1
  }

  /** `CustomMersenneTwister(seed)`: `mti` is set to `N + 1` before seeding
      and `seed_mt` leaves it there, so the first `random()` twists. */
  function Init(seed: int): (g: Generator)
    ensures Valid(g) && g.mti > N
  {
    Generator(ToWords(SeedMt(seed)), N + 1)
  }

  /** `random()` without the final division: twist when the words are used
      up, then temper the next word.  Afterwards `1 <= mti <= N`. */
  method Random(g: Generator) returns (g': Generator, y: bv32)
    requires Valid(g)
    ensures Valid(g') && 1 <= g'.mti <= N
    ensures g.mti >= N ==> g'.mti == 1 && TwistedFrom(g.mt, g'.mt)
    ensures g.mti < N ==> g'.mt == g.mt && g'.mti == g.mti + 1
    ensures y == Temper(g'.mt[g'.mti - 1])
  {
    var mt, mti := g.mt, g.mti;
    if mti >= N {
      mt := Twist(mt);
      mti := 0;
    }
    var w := mt[mti];
    mti := mti + 1;
    y := Temper(w);
    g' := Generator(mt, mti);
  }
}
