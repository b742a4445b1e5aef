/** Runs of a shift register over any word type: facts that do not depend on bit-vectors. */
module Registers {

  /** The register after taking in `bits`, one at a time. */
  function Run<R, B>(step: (R, B) -> R, c: R, bits: seq<B>): R
    decreases bits
  {
    if bits == [] then c else Run(step, step(c, bits[0]), bits[1..])
  }

  lemma {:induction false} RunConcat<R, B>(step: (R, B) -> R, c: R, u: seq<B>, v: seq<B>)
    ensures Run(step, c, u + v) == Run(step, Run(step, c, u), v)
    decreases u
  {
    if u == [] {
      assert u + v == v;
    } else {
      assert (u + v)[1..] == u[1..] + v;
      RunConcat(step, step(c, u[0]), u[1..], v);
    }
  }

  lemma {:induction false} RunInjective<R(!new), B(!new)>(step: (R, B) -> R, c: R, d: R, bits: seq<B>)
    requires forall x, y, b :: step(x, b) == step(y, b) ==> x == y
    requires Run(step, c, bits) == Run(step, d, bits)
    ensures c == d
    decreases bits
  {
    if bits != [] {
      RunInjective(step, step(c, bits[0]), step(d, bits[0]), bits[1..]);
    }
  }

  function Iterate<R>(f: R -> R, c: R, n: nat): R
    decreases n
  {
    if n == 0 then c else Iterate(f, f(c), n - 1)
  }

  lemma {:induction false} IterateSnoc<R>(f: R -> R, c: R, n: nat)
    ensures Iterate(f, c, n + 1) == f(Iterate(f, c, n))
    decreases n
  {
    if n > 0 {
      IterateSnoc(f, f(c), n - 1);
    }
  }

  lemma {:induction false} IterateLinear<R(!new)>(f: R -> R, xor: (R, R) -> R, a: R, b: R, n: nat)
    requires forall x, y :: f(xor(x, y)) == xor(f(x), f(y))
    ensures Iterate(f, xor(a, b), n) == xor(Iterate(f, a, n), Iterate(f, b, n))
    decreases n
  {
    if n > 0 {
      IterateLinear(f, xor, f(a), f(b), n - 1);
    }
  }

  lemma {:induction false} IterateInjective<R(!new)>(f: R -> R, x: R, y: R, n: nat)
    requires forall a, b :: f(a) == f(b) ==> a == b
    requires Iterate(f, x, n) == Iterate(f, y, n)
    ensures x == y
    decreases n
  {
    if n > 0 {
      IterateInjective(f, f(x), f(y), n - 1);
    }
  }

  /** The `n` low bits of `w`, lowest first. */
  function LowBits<R>(low: R -> bool, down: R -> R, w: R, n: nat): (bits: seq<bool>)
    ensures |bits| == n
    decreases n
  {
    if n == 0 then [] else [low(w)] + LowBits(low, down, down(w), n - 1)
  }

  /** Mixing a word in at once and shifting `n` times feeds its `n` low bits in one by one. */
  lemma {:induction false} IterateFeeds<R(!new)>(f: R -> R, xor: (R, R) -> R, step: (R, bool) -> R,
      low: R -> bool, down: R -> R, c: R, w: R, n: nat)
    requires forall x, y :: f(xor(x, y)) == xor(step(x, low(y)), down(y))
    ensures Iterate(f, xor(c, w), n) == xor(Run(step, c, LowBits(low, down, w, n)), Iterate(down, w, n))
    decreases n
  {
    if n > 0 {
      IterateFeeds(f, xor, step, low, down, step(c, low(w)), down(w), n - 1);
      assert LowBits(low, down, w, n)[1..] == LowBits(low, down, down(w), n - 1);
    }
  }

  /** Two equally long bit strings packed into one word by `pack`, the last bits first. */
  function Pack<R>(pack: (R, bool, bool) -> R, zero: R, u: seq<bool>, v: seq<bool>): R
    requires |u| == |v|
    decreases u
  {
    if u == [] then zero else pack(Pack(pack, zero, u[1..], v[1..]), u[0], v[0])
  }

  lemma {:induction false} PackFits<R(!new)>(pack: (R, bool, bool) -> R, zero: R, fits: (R, nat) -> bool,
      u: seq<bool>, v: seq<bool>, n: nat)
    requires |u| == |v| <= n
    requires forall k :: fits(zero, k)
    requires forall r, k: nat, a, b :: fits(r, k) ==> fits(pack(r, a, b), k + 1)
    ensures fits(Pack(pack, zero, u, v), n)
    decreases u
  {
    if u != [] {
      PackFits(pack, zero, fits, u[1..], v[1..], n - 1);
    }
  }

  lemma {:induction false} PackZero<R(!new)>(pack: (R, bool, bool) -> R, zero: R, fits: (R, nat) -> bool,
      u: seq<bool>, v: seq<bool>, n: nat)
    requires |u| == |v| <= n + 1
    requires forall k :: fits(zero, k)
    requires forall r, k: nat, a, b :: fits(r, k) ==> fits(pack(r, a, b), k + 1)
    requires forall r, a, b :: fits(r, n) && pack(r, a, b) == zero ==> r == zero && a == b
    requires Pack(pack, zero, u, v) == zero
    ensures u == v
    decreases u
  {
    if u != [] {
      PackFits(pack, zero, fits, u[1..], v[1..], n);
      PackZero(pack, zero, fits, u[1..], v[1..], n);
      assert u == [u[0]] + u[1..] && v == [v[0]] + v[1..];
    }
  }

  /**
   * Over at most `n + 1` bits, two runs end alike exactly when the start words differ as the bits do.
   */
  lemma {:induction false} RunsMeet<R(!new)>(step: (R, bool) -> R, xor: (R, R) -> R,
      pack: (R, bool, bool) -> R, zero: R, fits: (R, nat) -> bool,
      c: R, d: R, u: seq<bool>, v: seq<bool>, n: nat)
    requires |u| == |v| <= n + 1
    requires forall k :: fits(zero, k)
    requires forall r, k: nat, a, b :: fits(r, k) ==> fits(pack(r, a, b), k + 1)
    requires forall x, y :: xor(x, y) == zero <==> x == y
    requires forall x, y, a, b, r :: fits(r, n) ==> (xor(step(x, a), step(y, b)) == r <==> xor(x, y) == pack(r, a, b))
    ensures Run(step, c, u) == Run(step, d, v) <==> xor(c, d) == Pack(pack, zero, u, v)
    decreases u
  {
    if u != [] {
      RunsMeet(step, xor, pack, zero, fits, step(c, u[0]), step(d, v[0]), u[1..], v[1..], n);
      PackFits(pack, zero, fits, u[1..], v[1..], n);
    }
  }
}
