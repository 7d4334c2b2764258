/** Copy-on-write of mapped regions: demand mapping, fork, store faults and unmapping over the
    reference counts of kernel/kalloc.c. The simple form that it refines keeps one private copy of
    every private page and copies it at fork. */
module Cow {
  import opened Counting
  import Vm

  const PAGES: nat := Vm.PAGES

  /** The bytes of a page. */
  type Content = s: seq<nat> | |s| == 4096 witness seq(4096, _ => 0)

  /** A page of a process's address space. */
  datatype Addr = Addr(pid: nat, v: nat)

  /** prot and flags of the region that a page belongs to. */
  datatype Vma = Vma(readable: bool, writable: bool, private: bool)

  /** A valid page-table entry. */
  datatype Entry = Entry(page: nat, r: bool, w: bool, vma: Vma)

  datatype State = State(ptes: map<Addr, Entry>, refs: seq<nat>, free: seq<nat>, data: seq<Content>)

  ghost function Mappers(ptes: map<Addr, Entry>, p: nat): set<Addr> {
    set a | a in ptes && ptes[a].page == p
  }

  ghost predicate Shaped(s: State) {
    && |s.refs| == |s.data| == PAGES && Distinct(s.free)
    && forall i :: 0 <= i < |s.free| ==> s.free[i] < PAGES
  }

  /** What a mapped page can rely on. */
  ghost predicate Held(s: State, p: nat)
    requires Shaped(s)
  {
    p < PAGES && p !in s.free && |Mappers(s.ptes, p)| <= s.refs[p]
  }

  /** Two entries for the same page: both of private regions or neither, and not both if one of them
      is private and writable. */
  ghost predicate Compatible(a: Entry, b: Entry) {
    a.page == b.page ==> a.vma.private == b.vma.private && !(a.vma.private && a.w)
  }

  ghost predicate Inv(s: State) {
    && Shaped(s)
    && (forall a :: a in s.ptes ==> Held(s, s.ptes[a].page))
    && forall a, b :: a in s.ptes && b in s.ptes && a != b ==> Compatible(s.ptes[a], s.ptes[b])
  }

  // The steps.

  /** allocPhysicalVMA: a fresh page with the given contents. */
  function DemandMap(s: State, a: Addr, vma: Vma, c: Content): State
    requires s.free != [] && s.free[0] < |s.refs| == |s.data|
  {
    var p := s.free[0];
    State(s.ptes[a := Entry(p, vma.readable, vma.writable, vma)], s.refs[p := 1], s.free[1..], s.data[p := c])
  }

  /** The protection fork gives: private pages lose their write permission. */
  function ForkEntry(e: Entry): Entry {
    e.(r := e.vma.readable, w := e.vma.writable && !e.vma.private)
  }

  /** One page of fork's loop. */
  function ForkPage(s: State, a: Addr, child: Addr): State
    requires a in s.ptes ==> s.ptes[a].page < |s.refs|
  {
    if a !in s.ptes then s else
    var e := s.ptes[a];
    var shared := s.ptes[child := ForkEntry(e)];
    var ptes := if e.vma.private then shared[a := ForkEntry(e)] else shared;
    s.(ptes := ptes, refs := s.refs[e.page := s.refs[e.page] + 1])
  }

  /** A store fault at a finds the page it may need: one for the copy, if the page is shared. */
  predicate CanCopy(s: State, a: Addr) {
    a in s.ptes && (s.ptes[a].page < |s.refs| && s.refs[s.ptes[a].page] > 1 ==> s.free != [])
  }

  /** The copy-on-write branch of usertrap. */
  function StoreFault(s: State, a: Addr): State
    requires CanCopy(s, a) && s.ptes[a].page < |s.refs| == |s.data|
    requires s.free != [] ==> s.free[0] < |s.refs|
  {
    var e := s.ptes[a];
    if s.refs[e.page] > 1 then
      var p := s.free[0];
      var refs := s.refs[e.page := s.refs[e.page] - 1][p := 1];
      State(s.ptes[a := e.(page := p, w := true)], refs, s.free[1..], s.data[p := s.data[e.page]])
    else if s.refs[e.page] == 1 then s.(ptes := s.ptes[a := e.(w := true)])
    else s
  }

  /** A user store through a writable entry. */
  function Store(s: State, a: Addr, off: nat, b: nat): State
    requires a in s.ptes && s.ptes[a].page < |s.data| && off < 4096
  {
    var p := s.ptes[a].page;
    var c: Content := s.data[p][off := b];
    s.(data := s.data[p := c])
  }

  /** One page of deallocvma's loop. */
  function UnmapPage(s: State, a: Addr): State
    requires a in s.ptes ==> s.ptes[a].page < |s.refs|
  {
    if a !in s.ptes then s else
    var e := s.ptes[a];
    var t := s.(ptes := s.ptes - {a});
    if s.refs[e.page] == 1 then t.(free := [e.page] + s.free)
    else if e.vma.private || s.refs[e.page] == 0 then t
    else t.(refs := s.refs[e.page := s.refs[e.page] - 1])
  }

  // Counting mappings.

  lemma MappersInsert(ptes: map<Addr, Entry>, a: Addr, e: Entry, p: nat)
    ensures |Mappers(ptes[a := e], p)| ==
            |Mappers(ptes, p)| + (if e.page == p then 1 else 0) - (if a in ptes && ptes[a].page == p then 1 else 0)
  {
    var rest := Mappers(ptes, p) - {a};
    WithWithout(Mappers(ptes, p), a);
    if e.page == p {
      assert Mappers(ptes[a := e], p) == rest + {a};
    } else {
      assert Mappers(ptes[a := e], p) == rest;
    }
  }

  lemma WithWithout(m: set<Addr>, a: Addr)
    ensures |m| == |m - {a}| + if a in m then 1 else 0
  {
    if a in m {
      assert m == (m - {a}) + {a};
    } else {
      assert m == m - {a};
    }
  }

  lemma MappersRemove(ptes: map<Addr, Entry>, a: Addr, p: nat)
    requires a in ptes
    ensures Mappers(ptes - {a}, p) == Mappers(ptes, p) - {a}
    ensures |Mappers(ptes - {a}, p)| == |Mappers(ptes, p)| - if ptes[a].page == p then 1 else 0
  {
    assert Mappers(ptes - {a}, p) == Mappers(ptes, p) - {a};
  }

  /** A page whose count is 1 has one mapping. */
  lemma OnlyMapper(s: State, a: Addr, b: Addr)
    requires Inv(s) && a in s.ptes && b in s.ptes && s.ptes[a].page == s.ptes[b].page && s.refs[s.ptes[a].page] <= 1
    ensures a == b
  {
    assert Held(s, s.ptes[a].page);
    TwoMappers(Mappers(s.ptes, s.ptes[a].page), a, b);
  }

  lemma TwoMappers(m: set<Addr>, a: Addr, b: Addr)
    requires a in m && b in m
    ensures a == b || |m| >= 2
  {
    assert m == {a} + (m - {a});
  }

  lemma Counted(s: State, a: Addr)
    requires Inv(s) && a in s.ptes
    ensures s.ptes[a].page < PAGES && s.refs[s.ptes[a].page] >= 1 && s.ptes[a].page !in s.free
  {
    assert Held(s, s.ptes[a].page);
    assert a in Mappers(s.ptes, s.ptes[a].page);
  }

  // Every step keeps the invariant.

  lemma FreshPage(s: State)
    requires Shaped(s) && s.free != []
    ensures s.free[0] < PAGES && Distinct(s.free[1..]) && s.free[0] !in s.free[1..]
    ensures forall p :: p in s.free <==> p == s.free[0] || p in s.free[1..]
  {
    assert s.free == [s.free[0]] + s.free[1..];
  }

  lemma NoMappers(s: State, p: nat)
    requires Inv(s) && p in s.free
    ensures Mappers(s.ptes, p) == {} && forall a :: a in s.ptes ==> s.ptes[a].page != p
  {
    forall a | a in s.ptes
      ensures s.ptes[a].page != p
    {
      assert Held(s, s.ptes[a].page);
    }
  }

  lemma DemandMapInv(s: State, a: Addr, vma: Vma, c: Content)
    requires Inv(s) && s.free != [] && a !in s.ptes
    ensures s.free[0] < PAGES && Inv(DemandMap(s, a, vma, c))
  {
    hide Mappers, Distinct;
    FreshPage(s);
    var p := s.free[0];
    var t := DemandMap(s, a, vma, c);
    NoMappers(s, p);
    forall b | b in t.ptes
      ensures Held(t, t.ptes[b].page)
    {
      MappersInsert(s.ptes, a, t.ptes[a], t.ptes[b].page);
      if b != a {
        assert Held(s, s.ptes[b].page);
      }
    }
  }

  lemma ForkPageInv(s: State, a: Addr, child: Addr)
    requires Inv(s) && child !in s.ptes && a != child
    ensures a in s.ptes ==> s.ptes[a].page < PAGES
    ensures Inv(ForkPage(s, a, child))
  {
    hide Mappers, Distinct;
    if a in s.ptes {
      Counted(s, a);
      var t, e := ForkPage(s, a, child), s.ptes[a];
      forall b | b in t.ptes
        ensures Held(t, t.ptes[b].page)
      {
        var q := t.ptes[b].page;
        MappersInsert(s.ptes, child, ForkEntry(e), q);
        MappersInsert(s.ptes[child := ForkEntry(e)], a, ForkEntry(e), q);
        assert Held(s, q);
      }
      ForkCompatible(s, a, child);
    }
  }

  lemma ForkCompatible(s: State, a: Addr, child: Addr)
    requires Inv(s) && child !in s.ptes && a != child && a in s.ptes && s.ptes[a].page < PAGES
    ensures var t := ForkPage(s, a, child);
            forall b, c :: b in t.ptes && c in t.ptes && b != c ==> Compatible(t.ptes[b], t.ptes[c])
  {
    hide Held;
    var t := ForkPage(s, a, child);
    forall b, c | b in t.ptes && c in t.ptes && b != c
      ensures Compatible(t.ptes[b], t.ptes[c])
    {
      var b', c' := if b == child then a else b, if c == child then a else c;
      if b' != c' {
        assert Compatible(s.ptes[b'], s.ptes[c']);
      }
    }
  }

  lemma StoreFaultInv(s: State, a: Addr)
    requires Inv(s) && CanCopy(s, a)
    ensures s.ptes[a].page < PAGES && (s.free != [] ==> s.free[0] < PAGES) && Inv(StoreFault(s, a))
  {
    hide Mappers, Distinct;
    Counted(s, a);
    if s.free != [] {
      FreshPage(s);
      NoMappers(s, s.free[0]);
    }
    var t, e := StoreFault(s, a), s.ptes[a];
    forall b | b in t.ptes
      ensures Held(t, t.ptes[b].page)
    {
      MappersInsert(s.ptes, a, t.ptes[a], t.ptes[b].page);
      if b != a {
        assert Held(s, s.ptes[b].page);
      }
    }
    FaultCompatible(s, a);
  }

  lemma FaultCompatible(s: State, a: Addr)
    requires Inv(s) && CanCopy(s, a) && s.ptes[a].page < PAGES && (s.free != [] ==> s.free[0] < PAGES)
    ensures var t := StoreFault(s, a);
            forall b, c :: b in t.ptes && c in t.ptes && b != c ==> Compatible(t.ptes[b], t.ptes[c])
  {
    hide Held;
    var t := StoreFault(s, a);
    if s.free != [] {
      NoMappers(s, s.free[0]);
    }
    forall b, c | b in t.ptes && c in t.ptes && b != c && t.ptes[b].page == t.ptes[c].page
      ensures Compatible(t.ptes[b], t.ptes[c])
    {
      assert Compatible(s.ptes[b], s.ptes[c]);
      if s.refs[s.ptes[a].page] <= 1 && (b == a || c == a) {
        OnlyMapper(s, b, c);
      }
    }
  }

  lemma StoreInv(s: State, a: Addr, off: nat, b: nat)
    requires Inv(s) && a in s.ptes && s.ptes[a].page < PAGES && off < 4096
    ensures Inv(Store(s, a, off, b))
  {
    var t := Store(s, a, off, b);
    forall x | x in t.ptes
      ensures Held(t, t.ptes[x].page)
    {
      assert Held(s, s.ptes[x].page);
    }
  }

  lemma UnmapPageInv(s: State, a: Addr)
    requires Inv(s)
    ensures a in s.ptes ==> s.ptes[a].page < PAGES
    ensures Inv(UnmapPage(s, a))
  {
    hide Mappers;
    if a in s.ptes {
      Counted(s, a);
      var t, p := UnmapPage(s, a), s.ptes[a].page;
      forall b | b in t.ptes
        ensures Held(t, t.ptes[b].page)
      {
        MappersRemove(s.ptes, a, t.ptes[b].page);
        assert Held(s, s.ptes[b].page);
        if s.refs[p] == 1 && s.ptes[b].page == p {
          OnlyMapper(s, a, b);
        }
      }
    }
  }

  // Runs.

  datatype Step =
    | Demand(a: Addr, vma: Vma, c: Content)
    | Fork(a: Addr, child: Addr)
    | Write(a: Addr, off: nat, b: nat)
    | Unmap(a: Addr)

  predicate Enabled(s: State, step: Step) {
    match step
    case Demand(a, _, _) => a !in s.ptes && s.free != []
    case Fork(a, child) => child !in s.ptes && a != child
    case Write(a, off, _) => a in s.ptes && off < 4096 && (s.ptes[a].w || CanCopy(s, a))
    case Unmap(_) => true
  }

  /** A store that faults is repeated once the fault has been handled. */
  ghost function Next(s: State, step: Step): State
    requires Inv(s) && Enabled(s, step)
  {
    match step
    case Demand(a, vma, c) => DemandMapInv(s, a, vma, c); DemandMap(s, a, vma, c)
    case Fork(a, child) => ForkPageInv(s, a, child); ForkPage(s, a, child)
    case Write(a, off, b) => Store(Writable(s, a), a, off, b)
    case Unmap(a) => UnmapPageInv(s, a); UnmapPage(s, a)
  }

  ghost function Writable(s: State, a: Addr): (t: State)
    requires Inv(s) && a in s.ptes && (s.ptes[a].w || CanCopy(s, a))
    ensures Inv(t) && a in t.ptes && t.ptes[a].page < PAGES
  {
    Counted(s, a);
    if s.ptes[a].w then s else
    StoreFaultInv(s, a);
    Counted(StoreFault(s, a), a);
    StoreFault(s, a)
  }

  lemma NextInv(s: State, step: Step)
    requires Inv(s) && Enabled(s, step)
    ensures Inv(Next(s, step))
  {
    hide Inv;
    match step
    case Demand(a, vma, c) => DemandMapInv(s, a, vma, c);
    case Fork(a, child) => ForkPageInv(s, a, child);
    case Write(a, off, b) => StoreInv(Writable(s, a), a, off, b);
    case Unmap(a) => UnmapPageInv(s, a);
  }

  /** What the processes see in their private pages. */
  ghost function Private(s: State): map<Addr, Content> {
    map a | a in s.ptes && s.ptes[a].vma.private && s.ptes[a].page < |s.data| :: s.data[s.ptes[a].page]
  }

  /** The simple form: every private page is its process's own, and fork copies it. */
  function SimpleNext(m: map<Addr, Content>, step: Step): map<Addr, Content> {
    match step
    case Demand(a, vma, c) => if vma.private then m[a := c] else m
    case Fork(a, child) => if a in m then m[child := m[a]] else m
    case Write(a, off, b) =>
      if a in m && off < 4096 then
        var c: Content := m[a][off := b];
        m[a := c]
      else m
    case Unmap(a) => m - {a}
  }

  lemma Pages(s: State)
    requires Inv(s)
    ensures forall a :: a in s.ptes ==> s.ptes[a].page < PAGES && s.ptes[a].page !in s.free
    ensures |s.refs| == |s.data| == PAGES
  {
    forall a | a in s.ptes
      ensures s.ptes[a].page < PAGES && s.ptes[a].page !in s.free
    {
      Counted(s, a);
    }
  }

  lemma DemandRefines(s: State, a: Addr, vma: Vma, c: Content)
    requires Inv(s) && a !in s.ptes && s.free != [] && s.free[0] < PAGES
    ensures Private(DemandMap(s, a, vma, c)) == SimpleNext(Private(s), Demand(a, vma, c))
  {
    hide Inv;
    Pages(s);
    FreshIsFree(s);
  }

  lemma FreshIsFree(s: State)
    requires s.free != []
    ensures s.free[0] in s.free
  {
  }

  lemma ForkRefines(s: State, a: Addr, child: Addr)
    requires Inv(s) && child !in s.ptes && a != child && (a in s.ptes ==> s.ptes[a].page < PAGES)
    ensures Private(ForkPage(s, a, child)) == SimpleNext(Private(s), Fork(a, child))
  {
    hide Inv;
    Pages(s);
  }

  /** Handling a store fault changes nobody's view of anything. */
  lemma FaultInvisible(s: State, a: Addr)
    requires Inv(s) && a in s.ptes && (s.ptes[a].w || CanCopy(s, a))
    ensures var t := Writable(s, a);
            && t.ptes.Keys == s.ptes.Keys && |t.data| == PAGES == |s.data|
            && forall b :: b in s.ptes ==>
                 && t.ptes[b].vma == s.ptes[b].vma && t.ptes[b].page < PAGES && s.ptes[b].page < PAGES
                 && t.data[t.ptes[b].page] == s.data[s.ptes[b].page]
    ensures Private(Writable(s, a)) == Private(s)
  {
    hide Inv;
    Pages(s);
    Pages(Writable(s, a));
    if s.free != [] {
      FreshIsFree(s);
    }
    Counted(s, a);
  }

  /** After the fault the entry is writable, and if it is private its page is its own. */
  lemma FaultGrants(s: State, a: Addr)
    requires Inv(s) && a in s.ptes && (s.ptes[a].w || CanCopy(s, a))
    ensures Writable(s, a).ptes[a].w && Writable(s, a).ptes[a].vma == s.ptes[a].vma
    ensures s.ptes[a].vma.private ==> forall b :: b in Writable(s, a).ptes && b != a ==>
            Writable(s, a).ptes[b].page != Writable(s, a).ptes[a].page
  {
    hide Held, Shaped;
    Counted(s, a);
    var t := Writable(s, a);
    forall b | b in t.ptes && b != a && s.ptes[a].vma.private
      ensures t.ptes[b].page != t.ptes[a].page
    {
      assert Compatible(t.ptes[a], t.ptes[b]);
    }
  }

  /** A store through a shared mapping is not seen in any private page either. */
  lemma StoreRefines(s: State, a: Addr, off: nat, b: nat)
    requires Inv(s) && a in s.ptes && s.ptes[a].page < PAGES && off < 4096
    requires s.ptes[a].vma.private ==> s.ptes[a].w
    ensures Private(Store(s, a, off, b)) == SimpleNext(Private(s), Write(a, off, b))
  {
    hide Held;
    Pages(s);
    var t := Store(s, a, off, b);
    forall x | x in s.ptes && x != a && s.ptes[x].vma.private
      ensures s.ptes[x].page != s.ptes[a].page
    {
      assert Compatible(s.ptes[a], s.ptes[x]) && Compatible(s.ptes[x], s.ptes[a]);
    }
  }

  lemma UnmapRefines(s: State, a: Addr)
    requires Inv(s) && (a in s.ptes ==> s.ptes[a].page < PAGES)
    ensures Private(UnmapPage(s, a)) == SimpleNext(Private(s), Unmap(a))
  {
    hide Inv;
    Pages(s);
  }

  /** Copy-on-write is invisible: one step of the real system is one step of the simple form. */
  lemma CowRefines(s: State, step: Step)
    requires Inv(s) && Enabled(s, step)
    ensures Inv(Next(s, step)) && Private(Next(s, step)) == SimpleNext(Private(s), step)
  {
    hide Inv, Private, SimpleNext, Writable;
    NextInv(s, step);
    match step
    case Demand(a, vma, c) =>
      DemandMapInv(s, a, vma, c);
      DemandRefines(s, a, vma, c);
    case Fork(a, child) =>
      ForkPageInv(s, a, child);
      ForkRefines(s, a, child);
    case Write(a, off, b) =>
      FaultInvisible(s, a);
      FaultGrants(s, a);
      StoreRefines(Writable(s, a), a, off, b);
    case Unmap(a) =>
      UnmapPageInv(s, a);
      UnmapRefines(s, a);
  }

  /** The states of a run: `states[0]`, and one after each step. */
  ghost predicate IsRun(states: seq<State>, steps: seq<Step>) {
    && |states| == |steps| + 1 && Inv(states[0])
    && forall i :: 0 <= i < |steps| ==>
         Inv(states[i]) && Enabled(states[i], steps[i]) && states[i + 1] == Next(states[i], steps[i])
  }

  function SimpleRun(m: map<Addr, Content>, steps: seq<Step>): map<Addr, Content> {
    if steps == [] then m else SimpleNext(SimpleRun(m, steps[..|steps| - 1]), steps[|steps| - 1])
  }

  /** Over every run, what processes see in private pages is what the simple form says. */
  lemma {:induction false} CowRuns(states: seq<State>, steps: seq<Step>)
    requires IsRun(states, steps)
    ensures Inv(states[|steps|]) && Private(states[|steps|]) == SimpleRun(Private(states[0]), steps)
  {
    hide Inv, Private, SimpleNext, Next;
    var n := |steps|;
    if n > 0 {
      CowRuns(states[..n], steps[..n - 1]);
      CowRefines(states[n - 1], steps[n - 1]);
    }
  }

  // The reference counts.

  /** Every mapped page's count is the number of its mappings. */
  ghost predicate Exact(s: State) {
    |s.refs| == PAGES && forall a :: a in s.ptes ==>
      s.ptes[a].page < PAGES && s.refs[s.ptes[a].page] == |Mappers(s.ptes, s.ptes[a].page)|
  }

  /** Unmapping a page of a private region whose count is above 1 leaves the count alone. */
  ghost predicate Forgets(s: State, step: Step)
    requires Shaped(s)
  {
    && step.Unmap? && step.a in s.ptes && s.ptes[step.a].page < PAGES
    && s.ptes[step.a].vma.private && s.refs[s.ptes[step.a].page] > 1
  }

  /** The counts stay exact precisely as long as that does not happen. */
  lemma ExactUntil(s: State, step: Step)
    requires Inv(s) && Exact(s) && Enabled(s, step)
    ensures Exact(Next(s, step)) <==> !Forgets(s, step)
  {
    hide Inv, Exact, Mappers;
    match step
    case Demand(a, vma, c) =>
      DemandMapInv(s, a, vma, c);
      DemandExact(s, a, vma, c);
    case Fork(a, child) =>
      ForkPageInv(s, a, child);
      ForkExact(s, a, child);
    case Write(a, off, b) =>
      FaultExact(s, a);
      StoreExact(Writable(s, a), a, off, b);
    case Unmap(a) =>
      UnmapPageInv(s, a);
      UnmapExact(s, a);
  }

  lemma DemandExact(s: State, a: Addr, vma: Vma, c: Content)
    requires Inv(s) && Exact(s) && a !in s.ptes && s.free != [] && s.free[0] < PAGES
    ensures Exact(DemandMap(s, a, vma, c))
  {
    hide Mappers;
    var t := DemandMap(s, a, vma, c);
    FreshIsFree(s);
    NoMappers(s, s.free[0]);
    forall b | b in t.ptes
      ensures t.refs[t.ptes[b].page] == |Mappers(t.ptes, t.ptes[b].page)|
    {
      MappersInsert(s.ptes, a, t.ptes[a], t.ptes[b].page);
    }
  }

  lemma ForkExact(s: State, a: Addr, child: Addr)
    requires Inv(s) && Exact(s) && child !in s.ptes && a != child && (a in s.ptes ==> s.ptes[a].page < PAGES)
    ensures Exact(ForkPage(s, a, child))
  {
    hide Mappers;
    if a in s.ptes {
      var t, e := ForkPage(s, a, child), s.ptes[a];
      forall b | b in t.ptes
        ensures t.ptes[b].page < PAGES && t.refs[t.ptes[b].page] == |Mappers(t.ptes, t.ptes[b].page)|
      {
        MappersInsert(s.ptes, child, ForkEntry(e), t.ptes[b].page);
        MappersInsert(s.ptes[child := ForkEntry(e)], a, ForkEntry(e), t.ptes[b].page);
      }
    }
  }

  lemma FaultExact(s: State, a: Addr)
    requires Inv(s) && Exact(s) && a in s.ptes && (s.ptes[a].w || CanCopy(s, a))
    ensures Exact(Writable(s, a))
  {
    hide Mappers;
    Counted(s, a);
    if s.free != [] {
      FreshIsFree(s);
      NoMappers(s, s.free[0]);
    }
    var t := Writable(s, a);
    forall b | b in t.ptes
      ensures t.ptes[b].page < PAGES && t.refs[t.ptes[b].page] == |Mappers(t.ptes, t.ptes[b].page)|
    {
      MappersInsert(s.ptes, a, t.ptes[a], t.ptes[b].page);
    }
  }

  lemma StoreExact(s: State, a: Addr, off: nat, b: nat)
    requires Inv(s) && Exact(s) && a in s.ptes && s.ptes[a].page < PAGES && off < 4096
    ensures Exact(Store(s, a, off, b))
  {
  }

  lemma UnmapExact(s: State, a: Addr)
    requires Inv(s) && Exact(s) && (a in s.ptes ==> s.ptes[a].page < PAGES)
    ensures Exact(UnmapPage(s, a)) <==> !Forgets(s, Unmap(a))
  {
    hide Mappers;
    if a in s.ptes {
      var t, p := UnmapPage(s, a), s.ptes[a].page;
      forall b | b in t.ptes
        ensures t.ptes[b].page < PAGES
        ensures var q := t.ptes[b].page;
                |Mappers(t.ptes, q)| == |Mappers(s.ptes, q)| - if q == p then 1 else 0
      {
        MappersRemove(s.ptes, a, t.ptes[b].page);
      }
      Counted(s, a);
      forall b | b in t.ptes && s.refs[p] == 1
        ensures t.ptes[b].page != p
      {
        if t.ptes[b].page == p {
          OnlyMapper(s, a, b);
        }
      }
      if s.refs[p] > 1 {
        var b := SomeOther(s, a);
        assert b in t.ptes && t.ptes[b].page == p;
      }
    }
  }

  lemma SomeOther(s: State, a: Addr) returns (b: Addr)
    requires Exact(s) && a in s.ptes && s.refs[s.ptes[a].page] > 1
    ensures b in s.ptes && b != a && s.ptes[b].page == s.ptes[a].page
  {
    var m := Mappers(s.ptes, s.ptes[a].page);
    WithWithout(m, a);
    assert m - {a} != {};
    b :| b in m - {a};
  }

  /** A page in use whose count is above the number of its mappings. */
  ghost predicate Stuck(s: State, p: nat)
    requires Shaped(s)
  {
    p < PAGES && p !in s.free && |Mappers(s.ptes, p)| < s.refs[p]
  }

  /** Such a page is never freed again. */
  lemma StuckStays(s: State, step: Step, p: nat)
    requires Inv(s) && Enabled(s, step) && Stuck(s, p)
    ensures Inv(Next(s, step)) && Stuck(Next(s, step), p)
  {
    hide Inv, Mappers;
    NextInv(s, step);
    Pages(s);
    match step
    case Demand(a, vma, c) =>
      DemandMapInv(s, a, vma, c);
      FreshIsFree(s);
      MappersInsert(s.ptes, a, DemandMap(s, a, vma, c).ptes[a], p);
    case Fork(a, child) =>
      if a in s.ptes {
        ForkPageInv(s, a, child);
        MappersInsert(s.ptes, child, ForkEntry(s.ptes[a]), p);
        MappersInsert(s.ptes[child := ForkEntry(s.ptes[a])], a, ForkEntry(s.ptes[a]), p);
      }
    case Write(a, off, b) =>
      if s.free != [] {
        FreshIsFree(s);
      }
      Counted(s, a);
      MappersInsert(s.ptes, a, Writable(s, a).ptes[a], p);
    case Unmap(a) =>
      if a in s.ptes {
        UnmapPageInv(s, a);
        Counted(s, a);
        MappersRemove(s.ptes, a, p);
        MapsIt(s, a);
      }
  }

  lemma MapsIt(s: State, a: Addr)
    requires a in s.ptes
    ensures |Mappers(s.ptes, s.ptes[a].page)| >= 1
  {
    assert a in Mappers(s.ptes, s.ptes[a].page);
  }

  /** An unmapping that forgets to count makes the page stuck, so that no continuation of the run
      ever gives it back, even once nobody maps it. */
  lemma {:induction false} ForgottenForever(states: seq<State>, steps: seq<Step>, n: nat)
    requires IsRun(states, steps) && 0 < n <= |steps| && Forgets(states[0], steps[0])
    ensures Inv(states[n]) && Stuck(states[n], states[0].ptes[steps[0].a].page)
    decreases n
  {
    hide Inv, Mappers, Next;
    var s, a := states[0], steps[0].a;
    if n == 1 {
      NextInv(s, steps[0]);
      ForgottenStuck(s, a);
    } else {
      ForgottenForever(states, steps, n - 1);
      StuckStays(states[n - 1], steps[n - 1], s.ptes[a].page);
    }
  }

  lemma ForgottenStuck(s: State, a: Addr)
    requires Inv(s) && Forgets(s, Unmap(a))
    ensures Inv(Next(s, Unmap(a))) && Stuck(Next(s, Unmap(a)), s.ptes[a].page)
  {
    hide Mappers;
    NextInv(s, Unmap(a));
    MappersRemove(s.ptes, a, s.ptes[a].page);
    assert Held(s, s.ptes[a].page);
  }

  /** The memory after kinit: the pages from the end of the kernel on are free, the highest first, and
      no process has mapped anything. */
  ghost predicate Booted(s: State) {
    && s.ptes == map[] && |s.refs| == |s.data| == PAGES && 0 < |s.free| <= PAGES
    && forall i :: 0 <= i < |s.free| ==> s.free[i] == PAGES - 1 - i
  }

  lemma BootedInv(s: State)
    requires Booted(s)
    ensures Inv(s) && Exact(s)
  {
  }

  // Where the pages are.

  /** A step by which page p's count falls behind. */
  ghost predicate Slips(s: State, step: Step, p: nat) {
    Shaped(s) && Forgets(s, step) && s.ptes[step.a].page == p
  }

  /** What a step may do to page p: take it off the list for one mapping, put it back when its last
      mapping goes, or change its count by as much as its mappings, unless it slips. */
  ghost predicate Tallied(s: State, t: State, p: nat, slip: bool)
    requires Shaped(s) && Shaped(t) && p < PAGES
  {
    && (p in s.free && p !in t.free ==> |Mappers(t.ptes, p)| == t.refs[p] == 1)
    && (p !in s.free && p in t.free ==> |Mappers(s.ptes, p)| == s.refs[p] == 1 && !slip)
    && (p !in s.free && p !in t.free ==>
          && t.refs[p] - |Mappers(t.ptes, p)| == s.refs[p] - |Mappers(s.ptes, p)| + (if slip then 1 else 0)
          && (s.refs[p] > 0 ==> t.refs[p] > 0)
          && (Mappers(s.ptes, p) == {} ==> Mappers(t.ptes, p) == {}))
  }

  lemma DemandTally(s: State, a: Addr, vma: Vma, c: Content, p: nat)
    requires Inv(s) && a !in s.ptes && s.free != [] && s.free[0] < PAGES && p < PAGES
    requires Shaped(DemandMap(s, a, vma, c))
    ensures Tallied(s, DemandMap(s, a, vma, c), p, false)
  {
    hide Mappers, Distinct;
    FreshPage(s);
    NoMappers(s, s.free[0]);
    var t := DemandMap(s, a, vma, c);
    MappersInsert(s.ptes, a, t.ptes[a], p);
    if p != s.free[0] && Mappers(s.ptes, p) == {} {
      Empty(Mappers(t.ptes, p));
    }
  }

  lemma Empty<T>(m: set<T>)
    ensures |m| == 0 <==> m == {}
  {
  }

  lemma ForkTally(s: State, a: Addr, child: Addr, p: nat)
    requires Inv(s) && child !in s.ptes && a != child && (a in s.ptes ==> s.ptes[a].page < PAGES) && p < PAGES
    requires Shaped(ForkPage(s, a, child))
    ensures Tallied(s, ForkPage(s, a, child), p, false)
  {
    hide Mappers, Distinct;
    if a in s.ptes {
      var e := s.ptes[a];
      MappersInsert(s.ptes, child, ForkEntry(e), p);
      MappersInsert(s.ptes[child := ForkEntry(e)], a, ForkEntry(e), p);
      MapsIt(s, a);
      Empty(Mappers(s.ptes, p));
      Empty(Mappers(ForkPage(s, a, child).ptes, p));
    }
  }

  lemma FaultTally(s: State, a: Addr, p: nat)
    requires Inv(s) && a in s.ptes && (s.ptes[a].w || CanCopy(s, a)) && p < PAGES
    ensures Tallied(s, Writable(s, a), p, false)
  {
    hide Mappers, Distinct;
    Counted(s, a);
    if s.free != [] {
      FreshPage(s);
      NoMappers(s, s.free[0]);
    }
    MappersInsert(s.ptes, a, Writable(s, a).ptes[a], p);
    Empty(Mappers(s.ptes, p));
    Empty(Mappers(Writable(s, a).ptes, p));
  }

  lemma UnmapTally(s: State, a: Addr, p: nat)
    requires Inv(s) && (a in s.ptes ==> s.ptes[a].page < PAGES) && p < PAGES && Shaped(UnmapPage(s, a))
    ensures Tallied(s, UnmapPage(s, a), p, Slips(s, Unmap(a), p))
  {
    hide Mappers, Distinct;
    if a in s.ptes {
      Counted(s, a);
      MappersRemove(s.ptes, a, p);
      MapsIt(s, a);
      assert Held(s, s.ptes[a].page);
      Empty(Mappers(s.ptes, p));
      Empty(Mappers(s.ptes - {a}, p));
    }
  }

  lemma Tally(s: State, step: Step, p: nat)
    requires Inv(s) && Enabled(s, step) && p < PAGES
    ensures Inv(Next(s, step)) && Tallied(s, Next(s, step), p, Slips(s, step, p))
  {
    assert Shaped(s);
    NextInv(s, step);
    assert Shaped(Next(s, step));
    hide Inv, Mappers, Shaped, Tallied;
    match step
    case Demand(a, vma, c) =>
      DemandMapInv(s, a, vma, c);
      DemandTally(s, a, vma, c, p);
    case Fork(a, child) =>
      ForkPageInv(s, a, child);
      ForkTally(s, a, child, p);
    case Write(a, off, b) =>
      FaultTally(s, a, p);
      StoreTally(s, Writable(s, a), a, off, b, p);
    case Unmap(a) =>
      UnmapPageInv(s, a);
      UnmapTally(s, a, p);
  }

  lemma StoreTally(s: State, t: State, a: Addr, off: nat, b: nat, p: nat)
    requires Shaped(s) && Shaped(t) && p < PAGES && Tallied(s, t, p, false)
    requires a in t.ptes && t.ptes[a].page < PAGES && off < 4096
    ensures Shaped(Store(t, a, off, b)) && Tallied(s, Store(t, a, off, b), p, false)
  {
  }

  /** Unmapping frees the page if and only if its count is 1, and frees nothing else. */
  lemma UnmapFrees(s: State, a: Addr, p: nat)
    requires Inv(s)
    ensures p in Next(s, Unmap(a)).free <==>
            p in s.free || (a in s.ptes && p == s.ptes[a].page && p < |s.refs| && s.refs[p] == 1)
  {
    hide Mappers, Distinct;
    UnmapPageInv(s, a);
  }

  /** A page that is in nobody's debt: free, or mapped exactly as often as its count says. */
  ghost predicate Sound(s: State, p: nat)
    requires Shaped(s) && p < PAGES
  {
    p in s.free || 0 < |Mappers(s.ptes, p)| == s.refs[p]
  }

  lemma SoundUntil(s: State, step: Step, p: nat)
    requires Inv(s) && Enabled(s, step) && p < PAGES && Sound(s, p)
    ensures Inv(Next(s, step)) && (Sound(Next(s, step), p) <==> !Slips(s, step, p))
  {
    hide Inv, Mappers, Next, Forgets;
    Sizes(s);
    Tally(s, step, p);
    Sizes(Next(s, step));
    if Slips(s, step, p) {
      SlipSticks(s, step, p);
    }
  }

  lemma SlipSticks(s: State, step: Step, p: nat)
    requires Inv(s) && Enabled(s, step) && Slips(s, step, p)
    ensures Inv(Next(s, step)) && p < PAGES && Stuck(Next(s, step), p) && !Sound(Next(s, step), p)
  {
    hide Inv, Mappers, Next;
    ForgottenStuck(s, step.a);
    Sizes(Next(s, step));
  }

  lemma Sizes(s: State)
    requires Inv(s)
    ensures Shaped(s)
  {
  }

  /** Page p has slipped before state n. */
  ghost predicate Slipped(states: seq<State>, steps: seq<Step>, n: nat, p: nat)
    requires IsRun(states, steps) && n <= |steps|
  {
    exists i :: 0 <= i < n && Slips(states[i], steps[i], p)
  }

  ghost predicate Mapped(s: State, p: nat) {
    exists a :: a in s.ptes && s.ptes[a].page == p
  }

  lemma {:induction false} Lasting(states: seq<State>, steps: seq<Step>, n: nat, p: nat)
    requires IsRun(states, steps) && Booted(states[0]) && n <= |steps| && p < PAGES
    ensures Inv(states[n])
    ensures p in states[0].free ==> (Sound(states[n], p) <==> !Slipped(states, steps, n, p))
    ensures Slipped(states, steps, n, p) ==> Stuck(states[n], p)
    ensures p !in states[0].free ==> p !in states[n].free && Mappers(states[n].ptes, p) == {}
    decreases n
  {
    hide Inv, Mappers, Next, Slips;
    BootedInv(states[0]);
    if n == 0 {
      NoneMapped(p);
    } else {
      Lasting(states, steps, n - 1, p);
      var s, step := states[n - 1], steps[n - 1];
      Tally(s, step, p);
      Sizes(s);
      Sizes(states[n]);
      if Slips(s, step, p) {
        SlipSticks(s, step, p);
      } else if Slipped(states, steps, n - 1, p) {
        StuckStays(s, step, p);
      } else if p in states[0].free {
        SoundUntil(s, step, p);
      }
      assert Slipped(states, steps, n, p) <==> Slipped(states, steps, n - 1, p) || Slips(s, step, p);
    }
  }

  lemma NoneMapped(p: nat)
    ensures Mappers(map[], p) == {}
  {
  }

  /** No page comes from nowhere, and none is lost but by slipping: over every run from boot, the
      pages that are free or mapped are pages that were free at boot; and of those a page is free
      or mapped as its count says, exactly one of the two, unless an earlier step forgot to count
      it, and then it is never free again. */
  lemma PagesConserved(states: seq<State>, steps: seq<Step>, n: nat, p: nat)
    requires IsRun(states, steps) && Booted(states[0]) && n <= |steps| && p < PAGES
    ensures Inv(states[n])
    ensures p in states[n].free || Mapped(states[n], p) ==> p in states[0].free
    ensures !(p in states[n].free && Mapped(states[n], p))
    ensures p in states[0].free ==>
            p in states[n].free || Mapped(states[n], p) || (Slipped(states, steps, n, p) && Stuck(states[n], p))
    ensures !Slipped(states, steps, n, p) ==>
            (p in states[0].free <==> p in states[n].free || Mapped(states[n], p))
    ensures Slipped(states, steps, n, p) ==> p in states[0].free && p !in states[n].free
  {
    hide Inv, Next, Slips;
    Lasting(states, steps, n, p);
    var s := states[n];
    Sizes(s);
    if p in s.free {
      NoMappers(s, p);
    }
    if Mapped(s, p) {
      var a :| a in s.ptes && s.ptes[a].page == p;
      assert a in Mappers(s.ptes, p);
    } else {
      assert Mappers(s.ptes, p) == {};
    }
    if p !in states[0].free && Slipped(states, steps, n, p) {
      var i :| 0 <= i < n && Slips(states[i], steps[i], p);
      Lasting(states, steps, i, p);
      SlipsMapped(states[i], steps[i], p);
      assert false;
    }
  }

  lemma SlipsMapped(s: State, step: Step, p: nat)
    requires Slips(s, step, p)
    ensures Mappers(s.ptes, p) != {}
  {
    assert step.a in Mappers(s.ptes, p);
  }

  // Shared pages too: the simple form in which every private page is a cell of its own and a
  // shared page is one cell, common to all the processes that have it.

  /** What a process sees at a page, the region it belongs to, and who has the page in common; a
      shared page is stored to directly or by way of a fault. */
  datatype Cell = Cell(c: Content, vma: Vma, peers: set<Addr>, direct: bool)

  ghost function CellAt(s: State, a: Addr): Cell
    requires a in s.ptes && s.ptes[a].page < |s.data|
  {
    var e := s.ptes[a];
    Cell(s.data[e.page], e.vma, if e.vma.private then {a} else Mappers(s.ptes, e.page), !e.vma.private && e.w)
  }

  ghost function Cells(s: State): map<Addr, Cell> {
    map a | a in s.ptes && s.ptes[a].page < |s.data| :: CellAt(s, a)
  }

  /** a no longer shares anything. */
  function Leave(v: map<Addr, Cell>, a: Addr): map<Addr, Cell> {
    map x | x in v :: v[x].(peers := if x == a then {a} else v[x].peers - {a})
  }

  function Join(v: map<Addr, Cell>, all: set<Addr>): map<Addr, Cell> {
    map x | x in v :: if x in all then v[x].(peers := all) else v[x]
  }

  /** A store to a shared page that may not be stored to directly takes a copy, if others have the
      page too, and is direct from then on. */
  function CellsFault(v: map<Addr, Cell>, a: Addr): map<Addr, Cell>
    requires a in v
  {
    if v[a].vma.private || v[a].direct then v
    else
      var w := if |v[a].peers| > 1 then Leave(v, a) else v;
      w[a := w[a].(direct := true)]
  }

  function CellsStore(v: map<Addr, Cell>, a: Addr, off: nat, b: nat): map<Addr, Cell>
    requires a in v && off < 4096
  {
    var c: Content := v[a].c[off := b];
    map x | x in v :: if x in v[a].peers then v[x].(c := c) else v[x]
  }

  function CellsNext(v: map<Addr, Cell>, step: Step): map<Addr, Cell> {
    match step
    case Demand(a, vma, c) => v[a := Cell(c, vma, {a}, vma.writable && !vma.private)]
    case Fork(a, child) =>
      if a !in v then v
      else if v[a].vma.private then v[child := v[a].(peers := {child})]
      else Join(v[child := v[a].(direct := v[a].vma.writable)], v[a].peers + {child})
    case Write(a, off, b) => if a in v && off < 4096 then CellsStore(CellsFault(v, a), a, off, b) else v
    case Unmap(a) => Leave(v, a) - {a}
  }

  /** The count of a shared page is the number of its mappings. */
  ghost predicate SharedExact(s: State) {
    |s.refs| == PAGES && forall a :: a in s.ptes && !s.ptes[a].vma.private ==>
      s.ptes[a].page < PAGES && s.refs[s.ptes[a].page] == |Mappers(s.ptes, s.ptes[a].page)|
  }

  /** Where an entry of the next state comes from. */
  lemma Source(s: State, step: Step, a: Addr) returns (x: Addr)
    requires Inv(s) && Enabled(s, step) && a in Next(s, step).ptes && Next(s, step).ptes[a].page !in s.free
    ensures x in s.ptes && s.ptes[x].page == Next(s, step).ptes[a].page
    ensures s.ptes[x].vma == Next(s, step).ptes[a].vma
  {
    hide Inv, Mappers;
    Pages(s);
    x := a;
    match step
    case Demand(b, vma, c) =>
      DemandMapInv(s, b, vma, c);
      FreshIsFree(s);
    case Fork(b, child) =>
      ForkPageInv(s, b, child);
      if a == child {
        x := b;
      }
    case Write(b, off, c) =>
      if s.free != [] {
        FreshIsFree(s);
      }
    case Unmap(b) =>
      UnmapPageInv(s, b);
  }

  /** Only private pages slip. */
  lemma SharedExactKept(s: State, step: Step)
    requires Inv(s) && Enabled(s, step) && SharedExact(s)
    ensures Inv(Next(s, step)) && SharedExact(Next(s, step))
  {
    hide Mappers, Next, Held, Slips;
    NextInv(s, step);
    var t := Next(s, step);
    Pages(t);
    forall a | a in t.ptes && !t.ptes[a].vma.private
      ensures t.refs[t.ptes[a].page] == |Mappers(t.ptes, t.ptes[a].page)|
    {
      var p := t.ptes[a].page;
      Tally(s, step, p);
      if p !in s.free {
        var x := Source(s, step, a);
        NoSlip(s, step, x);
      }
    }
  }

  lemma NoSlip(s: State, step: Step, x: Addr)
    requires Inv(s) && x in s.ptes && !s.ptes[x].vma.private
    ensures !Slips(s, step, s.ptes[x].page)
  {
    hide Held, Mappers, Shaped;
    if step.Unmap? && step.a in s.ptes && step.a != x {
      assert Compatible(s.ptes[x], s.ptes[step.a]);
    }
  }

  lemma SameMappers(ptes: map<Addr, Entry>, a: Addr, e: Entry, p: nat)
    ensures Mappers(ptes[a := e], p) == if e.page == p then Mappers(ptes, p) + {a} else Mappers(ptes, p) - {a}
  {
  }

  lemma CellsAre(s: State, v: map<Addr, Cell>)
    requires Inv(s) && v.Keys == s.ptes.Keys
    requires forall x :: x in v ==> s.ptes[x].page < |s.data| && v[x] == CellAt(s, x)
    ensures Cells(s) == v
  {
    hide CellAt;
  }

  lemma CellsKeys(s: State)
    requires Inv(s)
    ensures Cells(s).Keys == s.ptes.Keys && |s.data| == PAGES
    ensures forall x :: x in s.ptes ==> s.ptes[x].page < |s.data| && Cells(s)[x] == CellAt(s, x)
  {
    hide Inv, CellAt;
    Pages(s);
  }

  lemma DemandCell(s: State, a: Addr, vma: Vma, c: Content, x: Addr)
    requires Inv(s) && a !in s.ptes && s.free != [] && s.free[0] < PAGES && x in DemandMap(s, a, vma, c).ptes
    ensures var t := DemandMap(s, a, vma, c);
            t.ptes[x].page < |t.data| && x in CellsNext(Cells(s), Demand(a, vma, c)) &&
            CellsNext(Cells(s), Demand(a, vma, c))[x] == CellAt(t, x)
  {
    hide Inv, Cells, Mappers;
    Pages(s);
    CellsKeys(s);
    FreshIsFree(s);
    NoMappers(s, s.free[0]);
    var t := DemandMap(s, a, vma, c);
    SameMappers(s.ptes, a, t.ptes[a], t.ptes[x].page);
    MappersIn(s.ptes, a, t.ptes[x].page);
  }

  lemma MappersIn(ptes: map<Addr, Entry>, a: Addr, p: nat)
    ensures a in Mappers(ptes, p) <==> a in ptes && ptes[a].page == p
  {
  }

  lemma ForkCell(s: State, a: Addr, child: Addr, x: Addr)
    requires Inv(s) && child !in s.ptes && a != child && a in s.ptes && s.ptes[a].page < PAGES
    requires x in ForkPage(s, a, child).ptes
    ensures var t := ForkPage(s, a, child);
            t.ptes[x].page < |t.data| && x in CellsNext(Cells(s), Fork(a, child)) &&
            CellsNext(Cells(s), Fork(a, child))[x] == CellAt(t, x)
  {
    hide Inv, Cells, Mappers;
    Pages(s);
    CellsKeys(s);
    var t, e := ForkPage(s, a, child), s.ptes[a];
    var y := if x == child then a else x;
    OneKind(s, y, a);
    SameMappers(s.ptes, child, ForkEntry(e), s.ptes[y].page);
    SameMappers(s.ptes[child := ForkEntry(e)], a, ForkEntry(e), s.ptes[y].page);
    MappersIn(s.ptes, child, s.ptes[y].page);
    MappersIn(s.ptes, a, s.ptes[y].page);
    MappersIn(s.ptes, y, e.page);
    assert Mappers(t.ptes, s.ptes[y].page) ==
           if s.ptes[y].page == e.page then Mappers(s.ptes, e.page) + {child} else Mappers(s.ptes, s.ptes[y].page);
  }

  /** The mappings of one page are all private or all shared. */
  lemma OneKind(s: State, a: Addr, b: Addr)
    requires Inv(s) && a in s.ptes && b in s.ptes
    ensures s.ptes[a].page == s.ptes[b].page ==> s.ptes[a].vma.private == s.ptes[b].vma.private
  {
    hide Held, Shaped;
    assert a != b ==> Compatible(s.ptes[a], s.ptes[b]);
  }

  predicate Copies(s: State, a: Addr)
    requires a in s.ptes && s.ptes[a].page < |s.refs|
  {
    !s.ptes[a].w && s.refs[s.ptes[a].page] > 1
  }

  lemma FaultPeers(s: State, a: Addr, x: Addr)
    requires Inv(s) && a in s.ptes && (s.ptes[a].w || CanCopy(s, a)) && x in s.ptes
    ensures var t := Writable(s, a);
            && |s.refs| == PAGES && s.ptes[a].page < PAGES && x in t.ptes
            && Mappers(t.ptes, t.ptes[x].page) ==
               if !Copies(s, a) then Mappers(s.ptes, s.ptes[x].page)
               else if x == a then {a}
               else Mappers(s.ptes, s.ptes[x].page) - {a}
  {
    hide Inv, Mappers, Writable;
    FaultEntry(s, a, x);
    if s.free != [] {
      FreshIsFree(s);
      NoMappers(s, s.free[0]);
    }
    Pages(s);
    var t := Writable(s, a);
    SameMappers(s.ptes, a, t.ptes[a], t.ptes[x].page);
    MappersIn(s.ptes, a, t.ptes[x].page);
  }

  lemma FaultCell(s: State, a: Addr, x: Addr)
    requires Inv(s) && SharedExact(s) && a in s.ptes && (s.ptes[a].w || CanCopy(s, a)) && x in s.ptes
    ensures var t := Writable(s, a);
            a in Cells(s) && x in t.ptes && t.ptes[x].page < |t.data| && x in CellsFault(Cells(s), a) &&
            CellsFault(Cells(s), a)[x] == CellAt(t, x)
  {
    hide Inv, Cells, Mappers, Writable, CanCopy;
    CellsKeys(s);
    FaultInvisible(s, a);
    FaultEntry(s, a, x);
    FaultPeers(s, a, x);
    OneKind(s, x, a);
    MappersIn(s.ptes, a, s.ptes[x].page);
    hide Private;
  }

  lemma FaultEntry(s: State, a: Addr, x: Addr)
    requires Inv(s) && a in s.ptes && (s.ptes[a].w || CanCopy(s, a)) && x in s.ptes
    ensures var t := Writable(s, a);
            t.ptes == s.ptes[a := t.ptes[a]] && t.ptes[a].w && t.ptes[a].vma == s.ptes[a].vma
    ensures var t := Writable(s, a);
            |s.refs| == PAGES && s.ptes[a].page < PAGES &&
            t.ptes[a].page == if s.ptes[a].w || s.refs[s.ptes[a].page] <= 1 then s.ptes[a].page else s.free[0]
  {
    hide Inv;
    Pages(s);
    Counted(s, a);
  }

  lemma StoreCell(s: State, a: Addr, off: nat, b: nat, x: Addr)
    requires Inv(s) && a in s.ptes && s.ptes[a].page < PAGES && off < 4096 && s.ptes[a].w && x in s.ptes
    ensures var t := Store(s, a, off, b);
            a in Cells(s) && t.ptes[x].page < |t.data| && x in CellsStore(Cells(s), a, off, b) &&
            CellsStore(Cells(s), a, off, b)[x] == CellAt(t, x)
  {
    hide Inv, Cells, Mappers;
    Pages(s);
    CellsKeys(s);
    OneKind(s, x, a);
    MappersIn(s.ptes, x, s.ptes[a].page);
    if s.ptes[a].vma.private {
      SoleWriter(s, a, x);
    }
  }

  lemma SoleWriter(s: State, a: Addr, x: Addr)
    requires Inv(s) && a in s.ptes && x in s.ptes && s.ptes[a].vma.private && s.ptes[a].w
    ensures s.ptes[x].page == s.ptes[a].page ==> x == a
  {
    hide Held, Shaped;
    assert x != a ==> Compatible(s.ptes[a], s.ptes[x]);
  }

  lemma UnmapCell(s: State, a: Addr, x: Addr)
    requires Inv(s) && (a in s.ptes ==> s.ptes[a].page < PAGES) && x in s.ptes && x != a
    ensures var t := UnmapPage(s, a);
            x in t.ptes && t.ptes[x].page < |t.data| && x in CellsNext(Cells(s), Unmap(a)) &&
            CellsNext(Cells(s), Unmap(a))[x] == CellAt(t, x)
  {
    hide Inv, Cells, Mappers;
    Pages(s);
    CellsKeys(s);
    MappersIn(s.ptes, a, s.ptes[x].page);
    if a in s.ptes {
      MappersRemove(s.ptes, a, s.ptes[x].page);
    }
  }

  lemma DemandCells(s: State, a: Addr, vma: Vma, c: Content)
    requires Inv(s) && Enabled(s, Demand(a, vma, c))
    ensures Cells(Next(s, Demand(a, vma, c))) == CellsNext(Cells(s), Demand(a, vma, c))
  {
    hide Inv, Cells, CellAt;
    DemandMapInv(s, a, vma, c);
    Pages(s);
    CellsKeys(s);
    var t := DemandMap(s, a, vma, c);
    forall x | x in t.ptes
      ensures t.ptes[x].page < |t.data| && CellsNext(Cells(s), Demand(a, vma, c))[x] == CellAt(t, x)
    {
      DemandCell(s, a, vma, c, x);
    }
    CellsAre(t, CellsNext(Cells(s), Demand(a, vma, c)));
  }

  lemma ForkCells(s: State, a: Addr, child: Addr)
    requires Inv(s) && Enabled(s, Fork(a, child))
    ensures Cells(Next(s, Fork(a, child))) == CellsNext(Cells(s), Fork(a, child))
  {
    hide Inv, Cells, CellAt;
    ForkPageInv(s, a, child);
    Pages(s);
    CellsKeys(s);
    var t := ForkPage(s, a, child);
    if a in s.ptes {
      forall x | x in t.ptes
        ensures t.ptes[x].page < |t.data| && CellsNext(Cells(s), Fork(a, child))[x] == CellAt(t, x)
      {
        ForkCell(s, a, child, x);
      }
      CellsAre(t, CellsNext(Cells(s), Fork(a, child)));
    }
  }

  lemma FaultKeys(v: map<Addr, Cell>, a: Addr)
    requires a in v
    ensures CellsFault(v, a).Keys == v.Keys
  {
  }

  lemma FaultCells(s: State, a: Addr)
    requires Inv(s) && SharedExact(s) && a in s.ptes && (s.ptes[a].w || CanCopy(s, a))
    ensures a in Cells(s) && Cells(Writable(s, a)) == CellsFault(Cells(s), a)
  {
    hide Inv, Cells, CellAt, SharedExact, Writable, Private, CanCopy, CellsFault;
    CellsKeys(s);
    FaultKeys(Cells(s), a);
    var t := Writable(s, a);
    FaultInvisible(s, a);
    forall x | x in t.ptes
      ensures t.ptes[x].page < |t.data| && CellsFault(Cells(s), a)[x] == CellAt(t, x)
    {
      FaultCell(s, a, x);
    }
    CellsAre(t, CellsFault(Cells(s), a));
  }

  lemma StoreCells(s: State, a: Addr, off: nat, b: nat)
    requires Inv(s) && a in s.ptes && s.ptes[a].page < PAGES && off < 4096 && s.ptes[a].w
    ensures a in Cells(s) && Cells(Store(s, a, off, b)) == CellsStore(Cells(s), a, off, b)
  {
    hide Inv, Cells, CellAt;
    CellsKeys(s);
    var t := Store(s, a, off, b);
    StoreInv(s, a, off, b);
    forall x | x in t.ptes
      ensures t.ptes[x].page < |t.data| && CellsStore(Cells(s), a, off, b)[x] == CellAt(t, x)
    {
      StoreCell(s, a, off, b, x);
    }
    CellsAre(t, CellsStore(Cells(s), a, off, b));
  }

  lemma UnmapCells(s: State, a: Addr)
    requires Inv(s)
    ensures Cells(Next(s, Unmap(a))) == CellsNext(Cells(s), Unmap(a))
  {
    hide Inv, Cells, CellAt;
    UnmapPageInv(s, a);
    Pages(s);
    CellsKeys(s);
    var t := UnmapPage(s, a);
    forall x | x in t.ptes
      ensures t.ptes[x].page < |t.data| && CellsNext(Cells(s), Unmap(a))[x] == CellAt(t, x)
    {
      UnmapCell(s, a, x);
    }
    CellsAre(t, CellsNext(Cells(s), Unmap(a)));
  }

  /** One step of the real system is one step on the cells. */
  lemma CellsRefine(s: State, step: Step)
    requires Inv(s) && SharedExact(s) && Enabled(s, step)
    ensures Inv(Next(s, step)) && Cells(Next(s, step)) == CellsNext(Cells(s), step)
  {
    hide Inv, Cells, Writable, SharedExact, CellsStore, CellsFault;
    NextInv(s, step);
    match step
    case Demand(a, vma, c) => DemandCells(s, a, vma, c);
    case Fork(a, child) => ForkCells(s, a, child);
    case Write(a, off, b) =>
      FaultCells(s, a);
      FaultGrants(s, a);
      StoreCells(Writable(s, a), a, off, b);
    case Unmap(a) => UnmapCells(s, a);
  }

  /** A store to a shared page reaches the others who have it if and only if the storing process could
      store without a fault: a fault takes it out of the sharing. */
  lemma StoreReaches(s: State, a: Addr, off: nat, b: nat, x: Addr)
    requires Inv(s) && SharedExact(s) && Enabled(s, Write(a, off, b)) && x != a
    requires x in s.ptes && s.ptes[x].page == s.ptes[a].page && !s.ptes[a].vma.private
    ensures Inv(Next(s, Write(a, off, b))) && a in Cells(s) && x in Cells(s) && Cells(s)[x].c == Cells(s)[a].c
    ensures var t := Next(s, Write(a, off, b));
            && a in Cells(t) && x in Cells(t) && Cells(t)[a].c == Cells(s)[a].c[off := b]
            && Cells(t)[x].c == if s.ptes[a].w then Cells(t)[a].c else Cells(s)[x].c
  {
    CellsKeys(s);
    hide Inv, Next, SharedExact, Cells, CanCopy;
    CellsRefine(s, Write(a, off, b));
    OneKind(s, x, a);
    TwoMappers(Mappers(s.ptes, s.ptes[a].page), a, x);
  }

  function CellsRun(steps: seq<Step>): map<Addr, Cell> {
    if steps == [] then map[] else CellsNext(CellsRun(steps[..|steps| - 1]), steps[|steps| - 1])
  }

  /** Over every run from boot: what every process sees, in private and in shared pages, is what the
      cells say. */
  lemma {:induction false} CellsRuns(states: seq<State>, steps: seq<Step>)
    requires IsRun(states, steps) && Booted(states[0])
    ensures Inv(states[|steps|]) && SharedExact(states[|steps|])
    ensures Cells(states[|steps|]) == CellsRun(steps)
  {
    hide Inv, SharedExact, Cells, CellsNext, Next;
    var n := |steps|;
    if n == 0 {
      BootedInv(states[0]);
      NothingMapped(states[0]);
    } else {
      CellsRuns(states[..n], steps[..n - 1]);
      SharedExactKept(states[n - 1], steps[n - 1]);
      CellsRefine(states[n - 1], steps[n - 1]);
    }
  }

  lemma NothingMapped(s: State)
    requires Booted(s)
    ensures SharedExact(s) && Cells(s) == map[]
  {
  }

  /** From boot: a page of a private region is mapped, the process forks, the child unmaps the page and
      so does the parent. Nobody maps it any more, and it is not free. */
  lemma LeakHappens(s: State, a: Addr, child: Addr, vma: Vma, c: Content) returns (states: seq<State>, steps: seq<Step>)
    requires Booted(s) && a != child && vma.private
    ensures IsRun(states, steps) && states[0] == s
    ensures steps == [Demand(a, vma, c), Fork(a, child), Unmap(child), Unmap(a)]
    ensures Exact(states[2]) && Forgets(states[2], steps[2]) && !Exact(states[3])
    ensures states[4].ptes == map[] && Inv(states[4]) && Stuck(states[4], PAGES - 1)
  {
    hide Mappers, Inv, Exact, Next;
    BootedInv(s);
    steps := [Demand(a, vma, c), Fork(a, child), Unmap(child), Unmap(a)];
    var s1 := Next(s, steps[0]);
    NextInv(s, steps[0]);
    ExactUntil(s, steps[0]);
    AfterDemand(s, a, vma, c);
    var s2 := Next(s1, steps[1]);
    NextInv(s1, steps[1]);
    ExactUntil(s1, steps[1]);
    AfterFork(s1, a, child);
    var s3 := Next(s2, steps[2]);
    NextInv(s2, steps[2]);
    ExactUntil(s2, steps[2]);
    AfterUnmap(s2, child);
    var s4 := Next(s3, steps[3]);
    AfterUnmap(s3, a);
    states := [s, s1, s2, s3, s4];
    ForgottenForever(states[2..], steps[2..], 2);
  }

  lemma AfterDemand(s: State, a: Addr, vma: Vma, c: Content)
    requires Booted(s) && Inv(s)
    ensures Next(s, Demand(a, vma, c)).ptes == map[a := Entry(PAGES - 1, vma.readable, vma.writable, vma)]
    ensures |Next(s, Demand(a, vma, c)).refs| == PAGES && Next(s, Demand(a, vma, c)).refs[PAGES - 1] == 1
  {
    hide Inv;
    DemandMapInv(s, a, vma, c);
  }

  lemma AfterFork(s: State, a: Addr, child: Addr)
    requires Inv(s) && a != child && a in s.ptes && s.ptes.Keys == {a} && s.ptes[a].vma.private
    requires |s.refs| == PAGES && s.ptes[a].page < PAGES && s.refs[s.ptes[a].page] == 1
    ensures var t := Next(s, Fork(a, child));
            && t.ptes.Keys == {a, child} && t.ptes[child].page == t.ptes[a].page == s.ptes[a].page
            && t.ptes[child].vma.private && |t.refs| == PAGES && t.refs[s.ptes[a].page] == 2
  {
    hide Inv;
    ForkPageInv(s, a, child);
  }

  lemma AfterUnmap(s: State, a: Addr)
    requires Inv(s)
    ensures Next(s, Unmap(a)).ptes == s.ptes - {a}
  {
    hide Inv;
    UnmapPageInv(s, a);
  }

  /** The region of n pages from `from` on. */
  predicate InRegion(a: Addr, from: Addr, n: nat) {
    a.pid == from.pid && from.v <= a.v < from.v + n
  }

  /** The parent's page for page x of the child's region. */
  function Origin(x: Addr, from: Addr, child: Addr): Addr {
    Addr(from.pid, if x.v >= child.v then from.v + (x.v - child.v) else 0)
  }

  ghost predicate Copied(m: map<Addr, Content>, x: Addr, from: Addr, child: Addr, n: nat) {
    InRegion(x, child, n) && Origin(x, from, child) in m
  }

  /** The simple form after a region of n pages has been forked: the child has a copy of every page
      of the parent's. */
  ghost predicate Forked(m: map<Addr, Content>, f: map<Addr, Content>, from: Addr, child: Addr, n: nat) {
    && (forall x :: x in f <==> x in m || Copied(m, x, from, child, n))
    && forall x :: x in f ==> f[x] == if Copied(m, x, from, child, n) then m[Origin(x, from, child)] else m[x]
  }

  ghost predicate NoneIn(s: State, from: Addr, n: nat) {
    forall a :: a in s.ptes ==> !InRegion(a, from, n)
  }

  /** The mappings of page p in a region. */
  ghost function InRange(ptes: map<Addr, Entry>, from: Addr, n: nat, p: nat): set<Addr> {
    set a | a in ptes && InRegion(a, from, n) && ptes[a].page == p
  }

  /** The entry at x after fork has gone over n pages of a region: the child has one for every page of
      the parent's, for the same physical page, and in a private region neither may store to it. */
  ghost predicate DoubledAt(s: State, t: State, from: Addr, child: Addr, n: nat, x: Addr) {
    if x in s.ptes then
      && x in t.ptes
      && t.ptes[x] == if InRegion(x, from, n) && s.ptes[x].vma.private then ForkEntry(s.ptes[x]) else s.ptes[x]
    else if InRegion(x, child, n) && Origin(x, from, child) in s.ptes then
      x in t.ptes && t.ptes[x] == ForkEntry(s.ptes[Origin(x, from, child)])
    else x !in t.ptes
  }

  ghost predicate Doubled(s: State, t: State, from: Addr, child: Addr, n: nat) {
    && |t.refs| == |s.refs| && (forall x :: DoubledAt(s, t, from, child, n, x))
    && forall p: nat :: p < |s.refs| ==> t.refs[p] == s.refs[p] + |InRange(s.ptes, from, n, p)|
  }

  lemma RangeMore(ptes: map<Addr, Entry>, from: Addr, k: nat, p: nat)
    ensures var a := Addr(from.pid, from.v + k);
            && |InRange(ptes, from, k + 1, p)| ==
               |InRange(ptes, from, k, p)| + (if a in ptes && ptes[a].page == p then 1 else 0)
            && a !in InRange(ptes, from, k, p)
  {
    var a := Addr(from.pid, from.v + k);
    var m := InRange(ptes, from, k, p);
    assert InRange(ptes, from, k + 1, p) == if a in ptes && ptes[a].page == p then m + {a} else m;
  }

  lemma NoneDoubled(s: State, from: Addr, child: Addr)
    ensures Doubled(s, s, from, child, 0)
  {
    forall p: nat
      ensures InRange(s.ptes, from, 0, p) == {}
    {
    }
  }

  lemma RegionMore(x: Addr, from: Addr, k: nat)
    ensures InRegion(x, from, k + 1) <==> InRegion(x, from, k) || x == Addr(from.pid, from.v + k)
  {
  }

  lemma DoubledAtMore(s: State, t: State, from: Addr, child: Addr, k: nat, a: Addr, c: Addr, x: Addr)
    requires from.pid != child.pid && NoneIn(s, child, k + 1) && Doubled(s, t, from, child, k)
    requires a == Addr(from.pid, from.v + k) && c == Addr(child.pid, child.v + k)
    requires forall y :: y in t.ptes ==> t.ptes[y].page < |t.refs|
    ensures DoubledAt(s, ForkPage(t, a, c), from, child, k + 1, x)
  {
    hide InRange;
    assert DoubledAt(s, t, from, child, k, x) && DoubledAt(s, t, from, child, k, a);
    RegionMore(x, from, k);
    RegionMore(x, child, k);
  }

  lemma DoubledMore(s: State, t: State, from: Addr, child: Addr, k: nat, a: Addr, c: Addr)
    requires from.pid != child.pid && NoneIn(s, child, k + 1) && Doubled(s, t, from, child, k)
    requires a == Addr(from.pid, from.v + k) && c == Addr(child.pid, child.v + k)
    requires forall y :: y in t.ptes ==> t.ptes[y].page < |t.refs|
    ensures c !in t.ptes && Doubled(s, ForkPage(t, a, c), from, child, k + 1)
  {
    assert DoubledAt(s, t, from, child, k, c) && DoubledAt(s, t, from, child, k, a);
    var u := ForkPage(t, a, c);
    forall p: nat | p < |s.refs|
      ensures u.refs[p] == s.refs[p] + |InRange(s.ptes, from, k + 1, p)|
    {
      RangeMore(s.ptes, from, k, p);
    }
    hide DoubledAt;
    var n := k + 1;
    forall x
      ensures DoubledAt(s, u, from, child, n, x)
    {
      DoubledAtMore(s, t, from, child, k, a, c, x);
    }
  }

  /** Removing m mappings of page p frees it if m is its whole count and, in a private region, 1. */
  ghost predicate Frees(s: State, p: nat, m: nat)
    requires p < |s.refs|
  {
    0 < m == s.refs[p] && (m == 1 || !PrivatePage(s, p))
  }

  ghost predicate PrivatePage(s: State, p: nat) {
    exists a :: a in s.ptes && s.ptes[a].page == p && s.ptes[a].vma.private
  }

  ghost predicate ReleasedPage(s: State, t: State, p: nat, m: nat)
    requires p < |s.refs| == |t.refs|
  {
    && (p in t.free <==> p in s.free || Frees(s, p, m))
    && t.refs[p] == if m == 0 || PrivatePage(s, p) then s.refs[p] else if m == s.refs[p] then 1 else s.refs[p] - m
  }

  /** Free pages and counts after n pages of a region have been unmapped. */
  ghost predicate Released(s: State, t: State, from: Addr, n: nat) {
    |t.refs| == |s.refs| == PAGES && forall p: nat :: p < PAGES ==> ReleasedAt(s, t, from, n, p)
  }

  ghost predicate ReleasedAt(s: State, t: State, from: Addr, n: nat, p: nat)
    requires p < |s.refs| == |t.refs|
  {
    ReleasedPage(s, t, p, |InRange(s.ptes, from, n, p)|)
  }

  lemma NoneReleased(s: State, from: Addr)
    requires Inv(s)
    ensures Released(s, s, from, 0)
  {
    forall p: nat
      ensures InRange(s.ptes, from, 0, p) == {}
    {
    }
  }

  lemma PageReleased(s: State, t: State, from: Addr, k: nat, a: Addr, p: nat)
    requires Inv(s) && Inv(t) && a == Addr(from.pid, from.v + k) && p < PAGES
    requires t.ptes == s.ptes - (set x | x in s.ptes && InRegion(x, from, k))
    requires a in t.ptes ==> t.ptes[a].page < PAGES
    requires ReleasedPage(s, t, p, |InRange(s.ptes, from, k, p)|)
    ensures ReleasedPage(s, UnmapPage(t, a), p, |InRange(s.ptes, from, k + 1, p)|)
  {
    hide Mappers, InRange, Distinct, Compatible;
    RangeMore(s.ptes, from, k, p);
    if a in s.ptes && s.ptes[a].page == p {
      RangeBound(s, from, k + 1, p);
      Counted(t, a);
      Counted(s, a);
      KindOf(s, a);
    }
  }

  lemma RangeBound(s: State, from: Addr, n: nat, p: nat)
    requires Inv(s) && p < PAGES && p !in s.free && Mapped(s, p)
    ensures |InRange(s.ptes, from, n, p)| <= s.refs[p]
  {
    var a :| a in s.ptes && s.ptes[a].page == p;
    assert Held(s, s.ptes[a].page);
    Within(InRange(s.ptes, from, n, p), Mappers(s.ptes, p));
  }

  lemma Within<T>(m: set<T>, n: set<T>)
    requires m <= n
    ensures |m| <= |n|
  {
    assert n == m + (n - m);
  }

  lemma KindOf(s: State, a: Addr)
    requires Inv(s) && a in s.ptes
    ensures PrivatePage(s, s.ptes[a].page) <==> s.ptes[a].vma.private
  {
    hide Inv;
    forall x | x in s.ptes && s.ptes[x].page == s.ptes[a].page
      ensures s.ptes[x].vma.private == s.ptes[a].vma.private
    {
      OneKind(s, x, a);
    }
  }

  lemma ReleasedMore(s: State, t: State, from: Addr, k: nat)
    requires Inv(s) && Inv(t) && Released(s, t, from, k)
    requires t.ptes == s.ptes - (set x | x in s.ptes && InRegion(x, from, k))
    requires Addr(from.pid, from.v + k) in t.ptes ==> t.ptes[Addr(from.pid, from.v + k)].page < PAGES
    ensures Released(s, UnmapPage(t, Addr(from.pid, from.v + k)), from, k + 1)
  {
    Pages(t);
    hide Inv, ReleasedPage, InRange;
    var a, n := Addr(from.pid, from.v + k), k + 1;
    var u := UnmapPage(t, a);
    forall p: nat | p < PAGES
      ensures ReleasedAt(s, u, from, n, p)
    {
      assert ReleasedAt(s, t, from, k, p);
      PageReleased(s, t, from, k, a, p);
    }
  }

  class Machine {
    var ptes: map<Addr, Entry>
    var refs: seq<nat>
    var free: seq<nat>
    var data: seq<Content>

    ghost function Now(): State
      reads this
    {
      State(ptes, refs, free, data)
    }

    method Kalloc() returns (p: nat)
      requires Inv(Now()) && free != []
      modifies this`refs, this`free
      ensures p == old(free)[0] < PAGES && free == old(free)[1..] && refs == old(refs)[p := 1]
    {
      FreshPage(Now());
      p := free[0];
      refs := refs[p := 1];
      free := free[1..];
    }

    /** The copy-on-write branch of `usertrap`. */
    method HandleStoreFault(a: Addr)
      requires Inv(Now()) && CanCopy(Now(), a)
      modifies this
      ensures old(ptes[a].page < |refs| == |data| && (free != [] ==> free[0] < |refs|))
      ensures Now() == old(StoreFault(Now(), a))
      ensures Inv(Now())
    {
      ghost var s := Now();
      StoreFaultInv(s, a);
      Counted(s, a);
      if free != [] {
        FreshIsFree(s);
      }
      var e := ptes[a];
      var ref := refs[e.page];
      if ref > 1 {
        var p := Kalloc();
        data := data[p := data[e.page]];
        ptes := ptes[a := e.(page := p, w := true)];
        refs := refs[e.page := refs[e.page] - 1];
        assert refs == s.refs[e.page := s.refs[e.page] - 1][p := 1];
      }
      if ref == 1 {
        ptes := ptes[a := e.(w := true)];
      }
    }

    /** fork's loop over the pages of one region. */
    method ForkRegion(from: Addr, child: Addr, n: nat)
      requires Inv(Now()) && from.pid != child.pid && NoneIn(Now(), child, n)
      modifies this
      ensures Inv(Now()) && Forked(old(Private(Now())), Private(Now()), from, child, n)
      ensures Doubled(old(Now()), Now(), from, child, n)
      ensures data == old(data) && free == old(free)
    {
      hide Inv, Private, Forked, Doubled;
      ghost var s := Now();
      NothingForked(Private(s), from, child);
      NoneDoubled(s, from, child);
      var k := 0;
      while k < n
        invariant 0 <= k <= n && Inv(Now()) && Forked(Private(s), Private(Now()), from, child, k)
        invariant data == s.data && free == s.free && Doubled(s, Now(), from, child, k)
      {
        ghost var t := Now();
        var a, c := Addr(from.pid, from.v + k), Addr(child.pid, child.v + k);
        Pages(t);
        DoubledMore(s, t, from, child, k, a, c);
        ForkPageInv(t, a, c);
        ForkRefines(t, a, c);
        ForkedMore(Private(s), Private(t), from, child, k);
        if a in ptes {
          var e := ptes[a];
          ptes := ptes[c := ForkEntry(e)];
          if e.vma.private {
            ptes := ptes[a := ForkEntry(e)];
          }
          refs := refs[e.page := refs[e.page] + 1];
        }
        assert Now() == ForkPage(t, a, c);
        k := k + 1;
      }
    }

    /** deallocvma's loop over the pages of one region. */
    method UnmapRegion(from: Addr, n: nat)
      requires Inv(Now())
      modifies this
      ensures Inv(Now()) && ptes == old(ptes) - (set a | a in old(ptes) && InRegion(a, from, n))
      ensures data == old(data) && Released(old(Now()), Now(), from, n)
    {
      hide Inv, Private, Released;
      ghost var s := Now();
      NoneReleased(s, from);
      var k := 0;
      while k < n
        invariant 0 <= k <= n && Inv(Now()) && data == s.data && Released(s, Now(), from, k)
        invariant ptes == s.ptes - (set a | a in s.ptes && InRegion(a, from, k))
      {
        ghost var t := Now();
        var a := Addr(from.pid, from.v + k);
        UnmapPageInv(t, a);
        Pages(t);
        ReleasedMore(s, t, from, k);
        if a in ptes {
          Counted(t, a);
          var e := ptes[a];
          ptes := ptes - {a};
          if refs[e.page] == 1 {
            free := [e.page] + free;
          } else if !e.vma.private {
            refs := refs[e.page := refs[e.page] - 1];
          }
        }
        assert Now() == UnmapPage(t, a);
        k := k + 1;
      }
    }
  }

  lemma NothingForked(m: map<Addr, Content>, from: Addr, child: Addr)
    ensures Forked(m, m, from, child, 0)
  {
  }

  lemma ForkedMore(m: map<Addr, Content>, f: map<Addr, Content>, from: Addr, child: Addr, k: nat)
    requires from.pid != child.pid && Forked(m, f, from, child, k)
    ensures Forked(m, SimpleNext(f, Fork(Addr(from.pid, from.v + k), Addr(child.pid, child.v + k))), from, child, k + 1)
  {
    var a, c := Addr(from.pid, from.v + k), Addr(child.pid, child.v + k);
    assert Origin(c, from, child) == a && !Copied(m, a, from, child, k);
    assert forall x :: Copied(m, x, from, child, k + 1) <==> Copied(m, x, from, child, k) || (x == c && a in m);
  }
}
