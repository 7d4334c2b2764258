/** `do_rand` of user/grind.c: Schrage's way of multiplying by 7^5 modulo the prime 2^31 - 1. */
module Grind {
  const M: nat := 0x7fff_ffff

  /** The recurrence that the code's comment names, on [1, M - 1]. */
  function Lehmer(x: nat): nat {
    16807 * x % M
  }

  /** hi and lo with no product past 31 bits. */
  function Schrage(x: nat): int {
    16807 * (x % 127773) - 2836 * (x / 127773)
  }

  lemma Fits31(x: nat)
    requires 0 < x < M
    ensures x / 127773 <= 16807 && 16807 * (x % 127773) < 0x8000_0000 && 2836 * (x / 127773) < 0x8000_0000
    ensures -0x8000_0000 < Schrage(x) < M
  {
  }

  /** The difference is congruent to the product. */
  lemma SameResidue(x: nat)
    ensures 16807 * x == M * (x / 127773) + Schrage(x)
  {
    var hi, lo := x / 127773, x % 127773;
    assert x == 127773 * hi + lo;
    assert 16807 * x == 2147480811 * hi + 16807 * lo;
  }

  /** It is never zero: 16807 has an inverse modulo M. */
  lemma NeverZero(x: nat)
    requires 0 < x < M
    ensures Schrage(x) != 0
  {
    assert 1407677000 * 16807 == 11017 * M + 1;
    NotZero(1407677000, 16807, x);
    SameResidue(x);
    ModuloIs(M * (x / 127773), x / 127773, 0);
  }

  lemma ModuloIs(n: nat, q: int, r: int)
    requires n == M * q + r && 0 <= r < M
    ensures n % M == r
  {
  }

  /** `do_rand`: the state moves on by the recurrence, shifted to begin at 0. */
  method DoRand(ctx: nat) returns (next: nat)
    ensures next + 1 == Lehmer(ctx % 0x7fff_fffe + 1) && 0 <= next <= 0x7fff_fffd
  {
    var x: int := ctx % 0x7fff_fffe + 1;
    ghost var x0: nat := x;
    Fits31(x0);
    SameResidue(x0);
    NeverZero(x0);
    var hi, lo := x / 127773, x % 127773;
    x := 16807 * lo - 2836 * hi;
    if x < 0 {
      ModuloIs(16807 * x0, hi - 1, x + M);
      x := x + 0x7fff_ffff;
    } else {
      ModuloIs(16807 * x0, hi, x);
    }
    x := x - 1;
    next := x;
  }

  /** The step on states, and its inverse: 1407677000 * 16807 == 11017 * M + 1. */
  function Step(y: nat): int {
    Lehmer(y + 1) - 1
  }

  function Back(y: nat): int {
    1407677000 * (y + 1) % M - 1
  }

  lemma TimesTimes(a: nat, b: nat, x: nat)
    requires a * b == 11017 * M + 1 && x < M
    ensures a * (b * x % M) % M == x
  {
    var q, r := b * x / M, b * x % M;
    assert b * x == M * q + r;
    assert a * (b * x) == a * (M * q) + a * r;
    assert a * (b * x) == (a * b) * x;
    assert a * (M * q) == M * (a * q);
    assert (11017 * M + 1) * x == M * (11017 * x) + x;
    assert a * r == M * (11017 * x - a * q) + x;
    ModuloIs(a * r, 11017 * x - a * q, x);
  }

  /** A residue of a multiple of x != 0 by an invertible number is not 0. */
  lemma NotZero(a: nat, b: nat, x: nat)
    requires a * b == 11017 * M + 1 && 0 < x < M
    ensures 0 < b * x % M < M
  {
    TimesTimes(a, b, x);
  }

  /** do_rand permutes [0, 0x7ffffffd]: Back undoes Step and Step undoes Back. */
  lemma Permutation(y: nat)
    requires y <= 0x7fff_fffd
    ensures 0 <= Step(y) <= 0x7fff_fffd && Back(Step(y)) == y
    ensures 0 <= Back(y) <= 0x7fff_fffd && Step(Back(y)) == y
  {
    assert 1407677000 * 16807 == 11017 * M + 1;
    NotZero(1407677000, 16807, y + 1);
    TimesTimes(1407677000, 16807, y + 1);
    assert 16807 * 1407677000 == 11017 * M + 1;
    NotZero(16807, 1407677000, y + 1);
    TimesTimes(16807, 1407677000, y + 1);
  }
}
