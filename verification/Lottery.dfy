/** The lottery draw of scheduler in kernel/proc.c and kernel/random.c, for one round over a fixed
    process table. */
module Lottery {
  import opened CInt
  import opened Counting

  datatype Proc = Proc(runnable: bool, tickets: nat)

  function Share(p: Proc): nat {
    if p.runnable then p.tickets else 0
  }

  /** The tickets of the first n processes that are RUNNABLE. */
  function Sum(procs: seq<Proc>, n: nat): nat
    requires n <= |procs|
  {
    if n == 0 then 0 else Sum(procs, n - 1) + Share(procs[n - 1])
  }

  lemma {:induction false} SumGrows(procs: seq<Proc>, m: nat, n: nat)
    requires m <= n <= |procs|
    ensures Sum(procs, m) <= Sum(procs, n)
  {
    if m < n {
      SumGrows(procs, m, n - 1);
    }
  }

  /** Process p holds the draws from Sum(p) + 1 to Sum(p + 1). */
  predicate Holds(procs: seq<Proc>, p: nat, draw: int)
    requires p < |procs|
  {
    Sum(procs, p) < draw <= Sum(procs, p + 1)
  }

  /** The first loop of `scheduler`. */
  method TotalTickets(procs: seq<Proc>) returns (total: nat)
    ensures total == Sum(procs, |procs|)
  {
    total := 0;
    for i := 0 to |procs|
      invariant total == Sum(procs, i)
    {
      if procs[i].runnable {
        total := total + procs[i].tickets;
      }
    }
  }

  /** The second loop: every process that it selects, in order. */
  method Select(procs: seq<Proc>, draw: int) returns (selected: seq<nat>)
    requires 1 <= draw <= Sum(procs, |procs|)
    ensures |selected| == 1 && selected[0] < |procs| && procs[selected[0]].runnable && Holds(procs, selected[0], draw)
  {
    selected := [];
    var random, p := draw, 0;
    while p < |procs| && random > 0
      invariant 0 <= p <= |procs| && random == draw - Sum(procs, p)
      invariant random > 0 ==> selected == []
      invariant random <= 0 ==> |selected| == 1 && selected[0] < |procs| && procs[selected[0]].runnable
      invariant random <= 0 ==> Holds(procs, selected[0], draw)
    {
      if procs[p].runnable {
        if random <= procs[p].tickets {
          selected := selected + [p];
        }
        random := random - procs[p].tickets;
      }
      p := p + 1;
    }
  }

  /** No two processes hold the same draw. */
  lemma HoldsOne(procs: seq<Proc>, p: nat, q: nat, draw: int)
    requires p < |procs| && q < |procs| && Holds(procs, p, draw) && Holds(procs, q, draw)
    ensures p == q
  {
    if p < q {
      SumGrows(procs, p + 1, q);
    } else if q < p {
      SumGrows(procs, q + 1, p);
    }
  }

  ghost function Draws(procs: seq<Proc>, p: nat): set<nat>
    requires p < |procs|
  {
    set draw: nat | 1 <= draw <= Sum(procs, |procs|) && Holds(procs, p, draw)
  }

  /** Exactly proportional: of the draws from 1 to the total, as many select p as p has tickets in
      play. */
  lemma Proportional(procs: seq<Proc>, p: nat)
    requires p < |procs|
    ensures |Draws(procs, p)| == Share(procs[p])
  {
    SumGrows(procs, p + 1, |procs|);
    assert Draws(procs, p) == Interval(Sum(procs, p) + 1, Share(procs[p]));
  }

  // The draw.

  /** One round of `random`: the product wraps around, and the remainder has the sign of the sum. */
  function Step(x: int): (y: int)
    ensures -0x8000 < y < 0x8000
  {
    Rem(ToInt(ToInt(1103515245 * x) + 12345), 32768)
  }

  function Rounds(seed: int, n: nat): int {
    if n == 0 then seed else Step(Rounds(seed, n - 1))
  }

  /** Wrapping the product and then the sum is wrapping once. */
  lemma WrapOnce(z: int)
    ensures ToInt(ToInt(z) + 12345) == ToInt(z + 12345)
  {
    var k := (ToInt(z) - z) / 0x1_0000_0000;
    assert ToInt(z) + 12345 == z + 12345 + 0x1_0000_0000 * k;
    Wraps(z + 12345, k);
  }

  lemma Wraps(x: int, k: int)
    ensures (x + 0x1_0000_0000 * k) % 0x1_0000_0000 == x % 0x1_0000_0000
  {
  }

  /** The value of a round, from the sum modulo 2 to the 32: negative exactly if the sum's top bit is set
      and 32768 does not divide it. */
  lemma StepSign(x: int)
    ensures var w := (1103515245 * x + 12345) % 0x1_0000_0000;
            Step(x) == w % 32768 - if w < 0x8000_0000 || w % 32768 == 0 then 0 else 32768
  {
    hide ToInt, Rem;
    var z := 1103515245 * x;
    WrapOnce(z);
    SignedRem((z + 12345) % 0x1_0000_0000, ToInt(z + 12345)) by {
      TopBit(z + 12345);
    }
  }

  lemma TopBit(x: int)
    ensures var w := x % 0x1_0000_0000;
            ToInt(x) == if w < 0x8000_0000 then w else w - 0x1_0000_0000
  {
  }

  lemma SignedRem(w: int, y: int)
    requires 0 <= w < 0x1_0000_0000 && y == if w < 0x8000_0000 then w else w - 0x1_0000_0000
    ensures Rem(y, 32768) == w % 32768 - if w < 0x8000_0000 || w % 32768 == 0 then 0 else 32768
  {
  }

  /** With three tickets at tick 0 the tenth value is negative, and being read as unsigned it makes the
      draw 1; by its residue it would be 2. */
  lemma NegativeDraw()
    ensures Rounds(3, 10) == -27919 && Draw(3, 0) == 1 && Rounds(3, 10) % 32768 % 3 + 1 == 2
  {
    hide Rounds, Step;
    NoRounds(3);
    Advance(0, 3, 1, -30041, -25728);
    Advance(1, -25728, -6610, -45971, -6727);
    Advance(2, -6727, -1728, -50157, -8706);
    Advance(3, -8706, -2237, 19474, 6495);
    Advance(4, 6495, 1669, -29568, -4180);
    Advance(5, -4180, -1074, 3087, 9333);
    Advance(6, 9333, 2398, -6829, -9206);
    Advance(7, -9206, -2365, -41616, -4997);
    Advance(8, -4997, -1284, 14414, 23192);
    Advance(9, 23192, 5959, -30045, -27919);
  }

  lemma NoRounds(seed: int)
    ensures Rounds(seed, 0) == seed
  {
  }

  lemma Advance(n: nat, x: int, k: int, q: int, y: int)
    requires Rounds(3, n) == x && 1103515245 * x + 12345 == 0x1_0000_0000 * k + 32768 * q + y
    requires -0x8000_0000 <= 32768 * q + y < 0x8000_0000 && -32768 < y < 32768
    requires (q >= 0 && y >= 0) || (q <= 0 && y <= 0)
    ensures Rounds(3, n + 1) == y
  {
    hide ToInt, Rem;
    var z, w := 1103515245 * x, 32768 * q + y;
    WrapOnce(z);
    ToIntIs(z + 12345, k, w);
    RemIs(w, q, y);
  }

  lemma ToIntIs(x: int, k: int, w: int)
    requires x == 0x1_0000_0000 * k + w && -0x8000_0000 <= w < 0x8000_0000
    ensures ToInt(x) == w
  {
    Wraps(w, k);
  }

  lemma RemIs(w: int, q: int, y: int)
    requires w == 32768 * q + y && -32768 < y < 32768 && ((q >= 0 && y >= 0) || (q <= 0 && y <= 0))
    ensures Rem(w, 32768) == y
  {
  }

  /** `random`; the result is read as unsigned. */
  method Random(seed: int) returns (r: nat)
    ensures r == Rounds(seed, 10) % 0x1_0000_0000
    ensures r < 0x8000 || 0xffff_8000 < r <= 0xffff_ffff
  {
    var xn := seed;
    for i := 0 to 10
      invariant xn == Rounds(seed, i)
    {
      xn := Step(xn);
    }
    r := xn % 0x1_0000_0000;
  }

  /** `randomrange`. */
  method RandomRange(seed: int, lo: int, hi: int) returns (r: int)
    requires 0 <= lo < 0x4000_0000 && 0 <= hi < 0x4000_0000
    ensures lo <= hi ==> lo <= r <= hi && r == Rounds(seed, 10) % 0x1_0000_0000 % (hi - lo + 1) + lo
    ensures hi < lo ==> hi <= r <= lo && r == Rounds(seed, 10) % 0x1_0000_0000 % (lo - hi + 1) + hi
  {
    hide Rounds, ToInt;
    var a, b := lo, hi;
    if b < a {
      a, b := b, a;
    }
    var range := b - a + 1;
    var x := Random(seed);
    SmallInt(x % range + a);
    r := ToInt(x % range + a);
  }

  /** The draw that scheduler makes with the given total of tickets and of ticks. */
  function Draw(total: nat, ticks: int): (draw: int)
    requires total > 0
    ensures 1 <= draw <= total
  {
    Rounds(ToInt(total + ticks), 10) % 0x1_0000_0000 % total + 1
  }

  /** One round of `scheduler`: if anybody has tickets, exactly one RUNNABLE process is chosen, the one
      that holds the draw. */
  method Schedule(procs: seq<Proc>, ticks: int) returns (chosen: seq<nat>)
    requires Sum(procs, |procs|) < 0x4000_0000
    ensures Sum(procs, |procs|) == 0 ==> chosen == []
    ensures Sum(procs, |procs|) > 0 ==> |chosen| == 1 && chosen[0] < |procs| && procs[chosen[0]].runnable
    ensures Sum(procs, |procs|) > 0 ==> procs[chosen[0]].tickets > 0
    ensures Sum(procs, |procs|) > 0 ==> Holds(procs, chosen[0], Draw(Sum(procs, |procs|), ticks))
  {
    hide Rounds;
    var total := TotalTickets(procs);
    if total < 1 {
      return [];
    }
    var draw := RandomRange(ToInt(total + ticks), 1, total);
    chosen := Select(procs, draw);
  }

  // Which draws occur.

  /** A round, seen modulo 32768, is a linear step; INVERSE undoes its factor. */
  const FACTOR := 20077
  const INVERSE := 27493

  function Linear(p: nat): (q: nat)
    ensures q < 32768
  {
    (FACTOR * p + 12345) % 32768
  }

  function Undo(q: nat): (p: nat)
    ensures p < 32768
  {
    (INVERSE * (q + 20423)) % 32768
  }

  lemma StepResidue(x: int)
    ensures Step(x) % 32768 == Linear(x % 32768)
  {
    hide ToInt, Rem, Linear;
    var z := 1103515245 * x;
    var w := ToInt(z);
    var y := ToInt(w + 12345);
    ResidueOf(w + 12345, y);
    SameResidue(z, w);
    RemResidue(y);
    FactorResidue(x);
  }

  lemma Residue(y: int, q: int, r: nat)
    requires y == 32768 * q + r && r < 32768
    ensures y % 32768 == r
  {
  }

  lemma SameResidue(z: int, w: int)
    requires (w - z) % 0x1_0000_0000 == 0
    ensures (w + 12345) % 32768 == (z + 12345) % 32768
  {
    ResidueOf(z + 12345, w + 12345);
  }

  /** Reading a number as an int does not change it modulo 32768. */
  lemma ResidueOf(x: int, w: int)
    requires (w - x) % 0x1_0000_0000 == 0
    ensures w % 32768 == x % 32768
  {
    var k := (w - x) / 0x1_0000_0000;
    Residue(w, x / 32768 + 131072 * k, x % 32768);
  }

  lemma RemResidue(y: int)
    ensures Rem(y, 32768) % 32768 == y % 32768
  {
    hide Rem, Quo;
    var r := Rem(y, 32768);
    Residue(y, Quo(y, 32768) + r / 32768, r % 32768);
  }

  lemma FactorResidue(x: int)
    ensures (1103515245 * x + 12345) % 32768 == Linear(x % 32768)
  {
    var k, p := x / 32768, x % 32768;
    var t := 20077 * p + 12345;
    var m := t / 32768;
    assert x == 32768 * k + p && t == 32768 * m + Linear(p);
    Residue(1103515245 * x + 12345, 33676 * x + 20077 * k + m, Linear(p));
  }

  lemma UndoLinear(q: nat)
    requires q < 32768
    ensures Linear(Undo(q)) == q
  {
    var s := q + 20423;
    var k := 27493 * s / 32768;
    assert 27493 * s == 32768 * k + Undo(q);
    Residue(20077 * Undo(q) + 12345, 16845 * s + 1 - 20077 * k, q);
  }

  lemma LinearUndo(p: nat)
    requires p < 32768
    ensures Undo(Linear(p)) == p
  {
    var t := 20077 * p + 12345;
    var k := t / 32768;
    assert t == 32768 * k + Linear(p);
    Residue(27493 * (Linear(p) + 20423), 16845 * p + 27493 - 27493 * k, p);
  }

  /** The seed, modulo 32768, from which n rounds lead to q. */
  function Source(q: nat, n: nat): (p: nat)
    requires q < 32768
    ensures p < 32768
    decreases n
  {
    if n == 0 then q else Source(Undo(q), n - 1)
  }

  /** n rounds lead to q modulo 32768 from exactly one seed modulo 32768. */
  lemma {:induction false} RoundsOnto(seed: int, n: nat, q: nat)
    requires q < 32768
    ensures Rounds(seed, n) % 32768 == q <==> seed % 32768 == Source(q, n)
  {
    if n > 0 {
      var x := Rounds(seed, n - 1);
      StepResidue(x);
      UndoLinear(q);
      LinearUndo(x % 32768);
      RoundsOnto(seed, n - 1, Undo(q));
    }
  }

  lemma DrawIs(total: nat, ticks: int)
    requires 0 < total && 32768 % total == 0 && 0 <= total + ticks < 0x8000_0000
    ensures Draw(total, ticks) == Rounds(total + ticks, 10) % 32768 % total + 1
  {
    hide Rounds, ToInt;
    SmallInt(total + ticks);
    DrawResidue(total, Rounds(total + ticks, 10));
  }

  lemma SmallInt(x: int)
    requires 0 <= x < 0x8000_0000
    ensures ToInt(x) == x
  {
  }

  /** With a total that divides 32768 a draw is made exactly for the seeds that come, modulo 32768, from
      the numbers that are the draw less one modulo the total. */
  lemma FairDraws(total: nat, ticks: int, draw: nat)
    requires 0 < total && 32768 % total == 0 && 1 <= draw <= total && 0 <= total + ticks < 0x8000_0000
    ensures Draw(total, ticks) == draw <==>
            exists q :: 0 <= q < 32768 && q % total == draw - 1 && (total + ticks) % 32768 == Source(q, 10)
  {
    hide Rounds, Source, Draw;
    var seed := total + ticks;
    var y := Rounds(seed, 10);
    var q := y % 32768;
    DrawIs(total, ticks);
    RoundsOnto(seed, 10, q);
    forall p | 0 <= p < 32768 && seed % 32768 == Source(p, 10)
      ensures p == q
    {
      RoundsOnto(seed, 10, p);
    }
  }

  /** If the total divides 32768 it does not matter whether the value was negative. */
  lemma DrawResidue(total: nat, y: int)
    requires 0 < total && 32768 % total == 0
    ensures y % 0x1_0000_0000 % total == y % 32768 % total
  {
    var m := 32768 / total;
    var a, b := y / 0x1_0000_0000, y / 32768;
    assert 32768 == total * m;
    Modulo(y % 0x1_0000_0000, y, total, 131072 * m * a);
    Modulo(y % 32768, y, total, m * b);
  }

  lemma Modulo(r: int, y: int, total: nat, k: int)
    requires total > 0 && y == r + total * k
    ensures r % total == y % total
  {
    var q := r / total;
    assert y == total * (q + k) + r % total;
    Quotient(y, total, q + k, r % total);
  }

  lemma Quotient(y: int, total: nat, q: int, r: nat)
    requires y == total * q + r && r < total
    ensures y % total == r
  {
    var d, e := y / total, y % total;
    assert y == total * d + e;
    Times(total, d, q);
  }

  lemma Divisor(total: nat)
    requires 0 < total && 32768 % total == 0
    ensures total <= 32768
  {
    if total > 32768 {
      Quotient(32768, total, 0, 32768);
    }
  }

  lemma Times(total: nat, d: int, q: int)
    ensures d > q ==> total * d >= total * q + total
    ensures d < q ==> total * d <= total * q - total
  {
    if d > q {
      Expand(total, q, d - q - 1);
    } else if d < q {
      Expand(total, d, q - d - 1);
    }
  }

  lemma Expand(total: nat, q: int, k: nat)
    ensures total * (q + 1 + k) == total * q + total + total * k && total * k >= 0
  {
  }

  /** So every draw occurs. */
  lemma EveryDraw(total: nat, draw: nat) returns (ticks: nat)
    requires 0 < total && 32768 % total == 0 && 1 <= draw <= total
    ensures ticks < 32768 && Draw(total, ticks) == draw
  {
    hide Rounds, Source, Draw;
    Divisor(total);
    var p := Source(draw - 1, 10);
    ticks := (p - total) % 32768;
    var k := (p - total) / 32768;
    Residue(total + ticks, -k, p);
    var q := draw - 1;
    Quotient(q, total, 0, q);
    FairDraws(total, ticks, draw);
    assert 0 <= q < 32768 && q % total == draw - 1 && (total + ticks) % 32768 == Source(q, 10);
  }

  /** What scheduler's seed comes to, modulo 32768, t ticks after `base`. */
  function Value(total: nat, base: nat, t: nat): (v: nat)
    ensures v < 32768
  {
    Rounds(total + base + t, 10) % 32768
  }

  /** In any 32768 consecutive ticks every value comes once. */
  lemma ValueOnce(total: nat, base: nat, q: nat) returns (t: nat)
    requires q < 32768
    ensures t < 32768 && Value(total, base, t) == q
    ensures forall u: nat :: u < 32768 && Value(total, base, u) == q ==> u == t
  {
    hide Rounds, Source;
    var s, p := total + base, Source(q, 10);
    t := (p - s) % 32768;
    Residue(s + t, -((p - s) / 32768), p);
    RoundsOnto(s + t, 10, q);
    forall u: nat | u < 32768 && Value(total, base, u) == q
      ensures u == t
    {
      RoundsOnto(s + u, 10, q);
    }
  }

  predicate Wins(procs: seq<Proc>, p: nat, total: nat, q: nat)
    requires p < |procs| && total > 0
  {
    Holds(procs, p, q % total + 1)
  }

  /** The numbers below `top` that are a draw of process p, less one and modulo the total. */
  ghost function Winning(procs: seq<Proc>, p: nat, total: nat, top: nat): set<nat>
    requires p < |procs| && total > 0
  {
    set q: nat | q < top && Wins(procs, p, total, q)
  }

  /** Each stretch of `total` numbers has as many of them as p has tickets in play. */
  lemma WinningMore(procs: seq<Proc>, p: nat, total: nat, k: nat, top: nat)
    requires p < |procs| && total == Sum(procs, |procs|) > 0 && top == total * k
    ensures |Winning(procs, p, total, top + total)| == |Winning(procs, p, total, top)| + Share(procs[p])
  {
    hide Sum, Wins, Share;
    var v, w := Winning(procs, p, total, top), Winning(procs, p, total, top + total);
    var i := Interval(top + Sum(procs, p), Share(procs[p]));
    SumGrows(procs, p + 1, |procs|);
    SumNext(procs, p);
    forall q: nat | top <= q < top + total
      ensures Wins(procs, p, total, q) <==> q in i
    {
      Quotient(q, total, k, q - top);
      WinsIs(procs, p, total, q, q - top);
    }
    assert w == v + i && v !! i;
  }

  lemma SumNext(procs: seq<Proc>, p: nat)
    requires p < |procs|
    ensures Sum(procs, p + 1) == Sum(procs, p) + Share(procs[p])
  {
  }

  lemma WinsIs(procs: seq<Proc>, p: nat, total: nat, q: nat, r: nat)
    requires p < |procs| && total > 0 && q % total == r
    ensures Wins(procs, p, total, q) <==> Sum(procs, p) <= r < Sum(procs, p + 1)
  {
    hide Sum;
  }

  lemma {:induction false} WinningCount(procs: seq<Proc>, p: nat, total: nat, n: nat)
    requires p < |procs| && total == Sum(procs, |procs|) > 0
    ensures |Winning(procs, p, total, total * n)| == Share(procs[p]) * n
  {
    hide Sum, Share;
    if n == 0 {
      assert Winning(procs, p, total, 0) == {};
    } else {
      var k := n - 1;
      WinningCount(procs, p, total, k);
      WinningMore(procs, p, total, k, total * k);
      Expand(total, k, 0);
      Expand(Share(procs[p]), k, 0);
    }
  }

  predicate Chosen(procs: seq<Proc>, p: nat, base: nat, t: nat)
    requires p < |procs| && Sum(procs, |procs|) > 0
  {
    Holds(procs, p, Draw(Sum(procs, |procs|), base + t))
  }

  /** The ticks, of the 32768 after `base`, at which process p is chosen. */
  ghost function Turns(procs: seq<Proc>, p: nat, base: nat): set<nat>
    requires p < |procs| && Sum(procs, |procs|) > 0
  {
    set t: nat | t < 32768 && Chosen(procs, p, base, t)
  }

  lemma ChosenIs(procs: seq<Proc>, p: nat, base: nat, t: nat)
    requires p < |procs| && Sum(procs, |procs|) > 0 && 32768 % Sum(procs, |procs|) == 0
    requires base < 0x4000_0000 && t < 32768
    ensures Chosen(procs, p, base, t) <==>
            Wins(procs, p, Sum(procs, |procs|), Value(Sum(procs, |procs|), base, t))
  {
    hide Rounds, Holds, Sum, Draw;
    Divisor(Sum(procs, |procs|));
    DrawIs(Sum(procs, |procs|), base + t);
  }

  lemma {:induction false} ImageCount(a: set<nat>, f: nat -> nat)
    requires forall t, u :: t in a && u in a && f(t) == f(u) ==> t == u
    ensures |set t | t in a :: f(t)| == |a|
  {
    if a != {} {
      var t :| t in a;
      ImageCount(a - {t}, f);
      assert (set u | u in a :: f(u)) == (set u | u in a - {t} :: f(u)) + {f(t)};
    }
  }

  /** Fair over time: if the total divides 32768, each process is chosen at exactly its share of any
      32768 consecutive ticks. */
  lemma FairOverTime(procs: seq<Proc>, p: nat, base: nat)
    requires p < |procs| && Sum(procs, |procs|) > 0 && 32768 % Sum(procs, |procs|) == 0 && base < 0x4000_0000
    ensures |Turns(procs, p, base)| * Sum(procs, |procs|) == 32768 * Share(procs[p])
  {
    hide Value, Chosen, Wins, Sum, Share;
    var total := Sum(procs, |procs|);
    Divisor(total);
    var n := 32768 / total;
    assert total * n == 32768;
    var turns, w := Turns(procs, p, base), Winning(procs, p, total, 32768);
    var f := t => Value(total, base, t);
    forall t: nat | t < 32768
      ensures f(t) < 32768 && (t in turns <==> f(t) in w)
    {
      ChosenIs(procs, p, base, t);
    }
    forall t, u | t in turns && u in turns && f(t) == f(u)
      ensures t == u
    {
      var v := ValueOnce(total, base, f(t));
    }
    ImageCount(turns, f);
    forall q | q in w
      ensures q in set t | t in turns :: f(t)
    {
      var t := ValueOnce(total, base, q);
      assert f(t) == q;
    }
    assert w == set t | t in turns :: f(t);
    WinningCount(procs, p, total, n);
    Regroup(n, Share(procs[p]), total);
  }

  lemma Regroup(n: nat, s: nat, total: nat)
    ensures s * n * total == (total * n) * s
  {
  }

  /** The draws that the range of random allows when the total is 32768 or more. */
  predicate InReach(total: nat, draw: nat)
    requires total > 0 && draw > 0
  {
    draw <= 32768 || 1 <= (0x1_0000_0000 - (draw - 1)) % total <= 32767
  }

  lemma DrawInReach(total: nat, ticks: int)
    requires 32768 <= total < 0x4000_0000
    ensures InReach(total, Draw(total, ticks))
  {
    hide Rounds;
    var y := Rounds(ToInt(total + ticks), 10);
    LastStep(ToInt(total + ticks));
    var x := y % 0x1_0000_0000;
    var e := x % total;
    if x >= 0x8000 {
      var j := 0x1_0000_0000 - x;
      var k := x / total;
      assert 0x1_0000_0000 - e == j + total * k;
      Modulo(j, 0x1_0000_0000 - e, total, k);
      Quotient(j, total, 0, j);
    } else {
      Quotient(x, total, 0, x);
    }
  }

  lemma LastStep(seed: int)
    ensures -0x8000 < Rounds(seed, 10) < 0x8000
  {
  }

  /** With more than 65535 tickets some draw never occurs. */
  lemma SomeDrawNever(total: nat) returns (draw: nat)
    requires 65535 < total < 0x4000_0000
    ensures 1 <= draw <= total && forall ticks: int :: Draw(total, ticks) != draw
  {
    hide Rounds, Draw;
    var c, k := 0x1_0000_0000 % total, 0x1_0000_0000 / total;
    if c >= 32768 {
      draw := c + 1;
      Quotient(0x1_0000_0000 - (draw - 1), total, k, 0);
    } else {
      draw := c + total - 32768 + 1;
      Quotient(0x1_0000_0000 - (draw - 1), total, k - 1, 32768);
    }
    forall ticks: int
      ensures Draw(total, ticks) != draw
    {
      DrawInReach(total, ticks);
    }
  }

  /** A process whose draws are all out of reach never runs. */
  lemma Starves(procs: seq<Proc>, p: nat, ticks: int)
    requires p < |procs| && 32768 <= Sum(procs, |procs|) < 0x4000_0000
    requires forall draw: nat :: draw > 0 && Holds(procs, p, draw) ==> !InReach(Sum(procs, |procs|), draw)
    ensures !Holds(procs, p, Draw(Sum(procs, |procs|), ticks))
  {
    hide Rounds, Draw, InReach;
    DrawInReach(Sum(procs, |procs|), ticks);
  }

  /** Three processes of which the second has more than half of the tickets and never runs. */
  function ThreeProcs(): seq<Proc> {
    [Proc(true, 32768), Proc(true, 58813), Proc(true, 8420)]
  }

  lemma StarvationHappens(ticks: int)
    ensures Sum(ThreeProcs(), 3) == 100001 < 2 * ThreeProcs()[1].tickets
    ensures !Holds(ThreeProcs(), 1, Draw(100001, ticks))
  {
    hide Rounds, Draw;
    var procs := ThreeProcs();
    assert Sum(procs, 1) == 32768 && Sum(procs, 2) == 91581 && Sum(procs, 3) == 100001;
    forall draw: nat | draw > 0 && Holds(procs, 1, draw)
      ensures !InReach(100001, draw)
    {
      Quotient(0x1_0000_0000 - (draw - 1), 100001, 42948, 124348 - (draw - 1));
    }
    Starves(procs, 1, ticks);
  }
}
