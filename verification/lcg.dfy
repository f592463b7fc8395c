/** The state update of the `LCG` class in `lab3/main.py`.

    `random()` sets `state = (a * state + c) % m` with Python's `%` (the
    remainder takes the sign of `m`) and then returns `state / m`; the model
    keeps the integer state and leaves out the division.  The constructor
    stores the seed as the first state without reducing it.
 */
module Lcg {
  import opened Wrappers
  import PyArith

  /** The constructor's default parameters (the constants of Numerical
      Recipes). */
  const DefaultSeed: int := 1
  const DefaultA: int := 1664525
  const DefaultC: int := 1013904223
  const DefaultM: int := 0x1_0000_0000

  datatype Error = ZeroDivisionError

  datatype Lcg = Lcg(seed: int, a: int, c: int, m: int, state: int)

  /** `LCG(seed, a, c, m)`: the seed becomes the state as it is. */
  function New(seed: int, a: int, c: int, m: int): (g: Lcg)
    ensures g.state == seed && g.seed == seed
    ensures g.a == a && g.c == c && g.m == m
  {
    Lcg(seed, a, c, m, seed)
  }

  /** `LCG()` */
  function Default(): (g: Lcg)
    ensures g.state == 1 && g.m == 0x1_0000_0000
  {
    New(DefaultSeed, DefaultA, DefaultC, DefaultM)
  }

  /** One `random()` call on the state: a modulus of zero raises
      `ZeroDivisionError`; otherwise the new state lies between zero and `m`
      (on the side of `m`'s sign) and differs from `a * state + c` by a
      multiple of `m`.  The parameters do not change. */
  function Step(g: Lcg): (r: Result<Lcg, Error>)
    ensures r.Err? <==> g.m == 0
    ensures r.Ok? ==> r.value == g.(state := r.value.state)
    ensures r.Ok? && g.m > 0 ==> 0 <= r.value.state < g.m
    ensures r.Ok? && g.m < 0 ==> g.m < r.value.state <= 0
    ensures r.Ok? ==> g.a * g.state + g.c == PyArith.FloorDiv(g.a * g.state + g.c, g.m) * g.m + r.value.state
  {
    if g.m == 0 then Err(ZeroDivisionError)
    else Ok(g.(state := PyArith.Mod(g.a * g.state + g.c, g.m)))
  }

  /** `k` calls of `random()`. */
  function Steps(g: Lcg, k: nat): Result<Lcg, Error>
    decreases k
  {
    if k == 0 then Ok(g)
    else
      match Step(g)
      case Err(e) => Err(e)
      case Ok(g') => Steps(g', k - 1)
  }

  /** With a positive modulus every call succeeds and, from the first call
      on, the state lies in `[0, m)`, whatever the seed was. */
  lemma {:induction false} StepsInRange(g: Lcg, k: nat)
    requires g.m > 0
    ensures Steps(g, k).Ok?
    ensures Steps(g, k).value.m == g.m && Steps(g, k).value.a == g.a && Steps(g, k).value.c == g.c
    ensures k >= 1 ==> 0 <= Steps(g, k).value.state < g.m
    decreases k
  {
    if k > 0 {
      StepsInRange(Step(g).value, k - 1);
    }
  }

  /** The unreduced seed makes no difference after the first call: seeding
      with `seed` or with `seed % m` gives the same next state. */
  lemma SeedOnlyMattersModM(g: Lcg)
    requires g.m != 0
    ensures Step(g).value.state == Step(g.(state := PyArith.Mod(g.state, g.m))).value.state
  {
    var m := g.m;
    var s := g.state;
    var q := PyArith.FloorDiv(s, m);
    var s' := PyArith.Mod(s, m);
    var x, x' := g.a * s + g.c, g.a * s' + g.c;
    assert s == q * m + s';
    assert x == x' + (g.a * q) * m;
    var r' := PyArith.Mod(x', m);
    var q' := PyArith.FloorDiv(x', m);
    assert x == (q' + g.a * q) * m + r';
    PyArith.ModUnique(x, m, q' + g.a * q, r');
  }

  /** The default generator's states are 32-bit words after the first call. */
  lemma DefaultStatesAreWords(k: nat)
    requires k >= 1
    ensures Steps(Default(), k).Ok?
    ensures 0 <= Steps(Default(), k).value.state < 0x1_0000_0000
  {
    StepsInRange(Default(), k);
  }
}
