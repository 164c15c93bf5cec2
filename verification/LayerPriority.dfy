// The priorities of layers: explicit ones stay, the others come above the layers they depend on.
module LayerPriority {
  import opened Options

  type Layer = string

  // ---- the smallest explicit priority ----

  function MinStep(min: int, prio: int): int {
    if min == 0 || prio < min then prio else min
  }

  /** min_prio after some explicit priorities, in order. */
  function MinPrio(prios: seq<int>): int {
    if prios == [] then 0 else MinStep(MinPrio(prios[..|prios| - 1]), prios[|prios| - 1])
  }

  ghost predicate IsMinimum(prios: seq<int>, m: int) {
    m in prios && forall p :: p in prios ==> m <= p
  }

  /** When the loop finds the minimum: there is no zero, or a negative value, or nothing else but zeros. */
  predicate Plain(prios: seq<int>) {
    0 !in prios || (exists p :: p in prios && p < 0) || (forall p :: p in prios ==> p <= 0)
  }

  lemma {:induction false} MinPrioSign(prios: seq<int>)
    ensures var m := MinPrio(prios);
            && (m == 0 || m in prios)
            && (m < 0 <==> exists p :: p in prios && p < 0)
            && (m < 0 ==> IsMinimum(prios, m))
            && (0 !in prios && prios != [] ==> m != 0 && IsMinimum(prios, m))
  {
    if prios != [] {
      var front, last := prios[..|prios| - 1], prios[|prios| - 1];
      MinPrioSign(front);
      assert forall p :: p in prios <==> p in front || p == last;
    }
  }

  lemma MinPrioIsMinimum(prios: seq<int>)
    requires Plain(prios) && prios != []
    ensures IsMinimum(prios, MinPrio(prios))
  {
    MinPrioSign(prios);
    assert prios[0] in prios;
  }

  /** Any of the priorities can come last. */
  lemma PutLast(prios: seq<int>, x: int) returns (front: seq<int>)
    requires x in prios
    ensures multiset(front + [x]) == multiset(prios) && forall p :: p in front ==> p in prios
  {
    var i :| 0 <= i < |prios| && prios[i] == x;
    var a, b := prios[..i], prios[i + 1..];
    front := a + b;
    assert prios == a + [x] + b;
    assert multiset(front + [x]) == multiset(a) + multiset(b) + multiset([x]);
  }

  lemma LastDecides(front: seq<int>, x: int)
    requires x >= 0 && forall p :: p in front ==> p >= 0
    ensures x == 0 ==> MinPrio(front + [x]) == 0
    ensures x > 0 ==> MinPrio(front + [x]) > 0
  {
    MinPrioSign(front);
    assert (front + [x])[..|front|] == front;
  }

  lemma PlainOrder(prios: seq<int>, other: seq<int>)
    requires Plain(prios) && forall x :: x in other <==> x in prios
    ensures MinPrio(other) == MinPrio(prios)
  {
    if other != [] {
      var y := other[0];
      assert y in other;
      assert y in prios;
    }
    if prios != [] {
      var x := prios[0];
      assert x in prios;
      assert x in other;
      MinPrioIsMinimum(prios);
      MinPrioIsMinimum(other);
    }
  }

  lemma NotPlainOrder(prios: seq<int>) returns (p: seq<int>, q: seq<int>)
    requires !Plain(prios)
    ensures multiset(p) == multiset(prios) == multiset(q) && MinPrio(p) != MinPrio(q)
  {
    var x :| x in prios && x > 0;
    var f0 := PutLast(prios, 0);
    var fx := PutLast(prios, x);
    LastDecides(f0, 0);
    LastDecides(fx, x);
    p, q := f0 + [0], fx + [x];
  }

  /** The order of the layers does not matter to min_prio exactly if the priorities are plain. */
  lemma MinPrioOrderIff(prios: seq<int>)
    ensures Plain(prios) <==> forall other :: multiset(other) == multiset(prios) ==> MinPrio(other) == MinPrio(prios)
  {
    if Plain(prios) {
      forall other | multiset(other) == multiset(prios) ensures MinPrio(other) == MinPrio(prios) {
        SameElements(prios, other);
        PlainOrder(prios, other);
      }
    } else {
      var p, q := NotPlainOrder(prios);
    }
  }

  lemma SameElements(s: seq<int>, t: seq<int>)
    requires multiset(s) == multiset(t)
    ensures |s| == |t| && forall x :: x in s <==> x in t
  {
    assert |multiset(s)| == |s| && |multiset(t)| == |t|;
    forall x ensures x in s <==> x in t {
      assert x in s <==> x in multiset(s);
      assert x in t <==> x in multiset(t);
    }
  }

  // ---- what the priorities should be ----

  /**
   * The enabled layers, the priorities given explicitly, and the dependencies and accepted recommendations of each.
   */
  datatype Config = Config(layers: set<Layer>, explicit: map<Layer, int>, depends: map<Layer, seq<Layer>>) {
    ghost predicate Valid() {
      forall c :: c in layers ==> c in depends
    }

    /** A priority that stays: the code takes 0 for none. */
    predicate Fixed(c: Layer) {
      c in explicit && explicit[c] != 0
    }

    /** No layer without a fixed priority comes back to itself. */
    ghost predicate Acyclic(rank: map<Layer, nat>) {
      && (forall c :: c in layers ==> c in rank)
      && forall c, d :: c in layers && c in depends && !Fixed(c) && d in depends[c] && d in layers ==> rank[d] < rank[c]
    }
  }

  ghost predicate IsMax(m: int, min: int, deps: seq<Layer>, p: map<Layer, int>) {
    && m >= min && (forall d :: d in deps ==> d in p && p[d] <= m)
    && (m == min || exists d :: d in deps && d in p && p[d] == m)
  }

  /** Fixed layers keep their value, every other is one above the greatest of min and what it depends on. */
  ghost predicate SolvesAt(g: Config, min: int, p: map<Layer, int>, c: Layer) {
    c in p && c in g.layers && c in g.depends &&
    if g.Fixed(c) then p[c] == g.explicit[c] else IsMax(p[c] - 1, min, g.depends[c], p)
  }

  /** Some layers have such priorities, and all that they are calculated from. */
  ghost predicate Solves(g: Config, min: int, p: map<Layer, int>) {
    forall c :: c in p ==> SolvesAt(g, min, p, c)
  }

  /** There is at most one solution, and where two cover a layer they agree. */
  lemma {:induction false} SolutionUnique(g: Config, min: int, rank: map<Layer, nat>, p: map<Layer, int>, q: map<Layer, int>, c: Layer)
    requires g.Valid() && g.Acyclic(rank) && Solves(g, min, p) && Solves(g, min, q) && c in p && c in q
    ensures p[c] == q[c]
    decreases rank[c]
  {
    assert SolvesAt(g, min, p, c) && SolvesAt(g, min, q, c);
    if !g.Fixed(c) {
      forall d | d in g.depends[c] ensures p[d] == q[d] {
        assert SolvesAt(g, min, p, d);
        SolutionUnique(g, min, rank, p, q, d);
      }
    }
  }

  // ---- the calculation ----

  /** The priority of a layer; None when it takes one of a layer that is not enabled, a KeyError. */
  ghost function Value(g: Config, min: int, rank: map<Layer, nat>, c: Layer): Option<int>
    requires g.Valid() && g.Acyclic(rank) && c in g.layers
    decreases rank[c], |g.depends[c]| + 1
  {
    if g.Fixed(c) then Some(g.explicit[c])
    else
      var m := Top(g, min, rank, c, |g.depends[c]|);
      if m.None? then None else Some(m.value + 1)
  }

  /** The greatest of min and the first k dependencies. */
  ghost function Top(g: Config, min: int, rank: map<Layer, nat>, c: Layer, k: nat): Option<int>
    requires g.Valid() && g.Acyclic(rank) && c in g.layers && !g.Fixed(c) && k <= |g.depends[c]|
    decreases rank[c], k
  {
    if k == 0 then Some(min)
    else
      var d := g.depends[c][k - 1];
      var m := Top(g, min, rank, c, k - 1);
      if m.None? || d !in g.layers then None
      else
        var v := Value(g, min, rank, d);
        if v.None? then None else if v.value > m.value then v else m
  }

  class Collections {
    const g: Config
    const minPrio: int
    ghost const rank: map<Layer, nat>
    /** collection_priorities */
    var prio: map<Layer, Option<int>>

    constructor (g: Config, minPrio: int, ghost rank: map<Layer, nat>)
      requires g.Valid() && g.Acyclic(rank)
      ensures this.g == g && this.minPrio == minPrio && this.rank == rank && Valid()
    {
      this.g, this.minPrio, this.rank := g, minPrio, rank;
      prio := map c | c in g.layers :: if c in g.explicit then Some(g.explicit[c]) else None;
    }

    /** Every layer is as configured, or calculated. */
    ghost predicate Valid()
      reads this
    {
      && g.Valid() && g.Acyclic(rank)
      && (forall c :: c in prio <==> c in g.layers)
      && forall c :: c in prio ==>
           prio[c] == (if c in g.explicit then Some(g.explicit[c]) else None) || (Calculated(c))
    }

    ghost predicate Calculated(c: Layer)
      requires g.Valid() && g.Acyclic(rank)
      reads this
    {
      c in prio && c in g.layers && prio[c].Some? && prio[c] == Value(g, minPrio, rank, c)
    }

    /** The second loop over the layers. */
    method CalcAll(collections: seq<Layer>) returns (ok: bool)
      requires Valid() && forall c :: c in collections ==> c in g.layers
      modifies this
      ensures Valid()
      ensures ok ==> forall c :: c in collections ==>
        c in prio && c in Values(g, minPrio, rank) && prio[c] == Some(Values(g, minPrio, rank)[c])
      ensures !ok ==> exists c :: c in collections && c !in Values(g, minPrio, rank)
    {
      hide Value;
      for i := 0 to |collections|
        invariant Valid() && forall j :: 0 <= j < i ==> Calculated(collections[j])
      {
        assert collections[i] in collections;
        ok := Calc(collections[i]);
        if !ok {
          return;
        }
      }
      ok := true;
    }

    /** `calc_layer_priority(collection)`; false is the KeyError. */
    method Calc(c: Layer) returns (ok: bool)
      requires Valid() && (c in g.layers ==> c in rank)
      modifies this
      ensures Valid() && (ok <==> c in g.layers && Value(g, minPrio, rank, c).Some?)
      ensures ok ==> Calculated(c)
      ensures forall d :: old(Calculated(d)) ==> Calculated(d)
      decreases c in g.layers, if c in g.layers then rank[c] else 0, 1
    {
      hide Value, Top, Config.Acyclic;
      if c !in prio {
        return false;
      }
      TopEnds(g, minPrio, rank, c);
      if prio[c].None? || prio[c].value == 0 {
        var fine, max := MaxDepPrio(c);
        if !fine {
          return false;
        }
        max := max + 1;
        ghost var before := prio;
        prio := prio[c := Some(max)];
        assert Calculated(c);
        assert forall d :: d != c && d in before ==> prio[d] == before[d];
      }
      return true;
    }

    /** Its loop over the dependencies. */
    method MaxDepPrio(c: Layer) returns (ok: bool, max: int)
      requires Valid() && c in g.layers && c in rank && !g.Fixed(c)
      modifies this
      ensures Valid()
      ensures Top(g, minPrio, rank, c, |g.depends[c]|) == if ok then Some(max) else None
      ensures forall d :: old(Calculated(d)) ==> Calculated(d)
      decreases true, rank[c], 0
    {
      hide Value, Top, Config.Acyclic;
      TopEnds(g, minPrio, rank, c);
      max := minPrio;
      var deps := g.depends[c];
      for i := 0 to |deps|
        invariant Valid() && Top(g, minPrio, rank, c, i) == Some(max)
        invariant forall d :: old(Calculated(d)) ==> Calculated(d)
      {
        var dep := deps[i];
        TopStep(g, minPrio, rank, c, i);
        var fine := Calc(dep);
        if !fine {
          TopFails(g, minPrio, rank, c, i + 1);
          return false, max;
        }
        var depprio := prio[dep].value;
        if depprio > max {
          max := depprio;
        }
      }
      ok := true;
    }
  }

  lemma TopEnds(g: Config, min: int, rank: map<Layer, nat>, c: Layer)
    requires g.Valid() && g.Acyclic(rank) && c in g.layers
    ensures g.Fixed(c) ==> Value(g, min, rank, c) == Some(g.explicit[c])
    ensures !g.Fixed(c) ==>
      && Top(g, min, rank, c, 0) == Some(min)
      && var m := Top(g, min, rank, c, |g.depends[c]|);
         Value(g, min, rank, c) == if m.None? then None else Some(m.value + 1)
  {
  }

  lemma TopStep(g: Config, min: int, rank: map<Layer, nat>, c: Layer, i: nat)
    requires g.Valid() && g.Acyclic(rank) && c in g.layers && !g.Fixed(c) && i < |g.depends[c]|
    requires Top(g, min, rank, c, i).Some?
    ensures var d, m := g.depends[c][i], Top(g, min, rank, c, i).value;
            Top(g, min, rank, c, i + 1) ==
            if d !in g.layers then None
            else
              var v := Value(g, min, rank, d);
              if v.None? then None else Some(if v.value > m then v.value else m)
    ensures var d := g.depends[c][i];
            d in g.layers ==> d in rank && rank[d] < rank[c]
  {
    assert g.depends[c][i] in g.depends[c];
  }

  lemma {:induction false} TopFails(g: Config, min: int, rank: map<Layer, nat>, c: Layer, k: nat)
    requires g.Valid() && g.Acyclic(rank) && c in g.layers && !g.Fixed(c) && k <= |g.depends[c]|
    requires Top(g, min, rank, c, k).None?
    ensures Top(g, min, rank, c, |g.depends[c]|).None?
    decreases |g.depends[c]| - k
  {
    if k < |g.depends[c]| {
      TopFails(g, min, rank, c, k + 1);
    }
  }

  // ---- what is calculated is the solution ----

  ghost function Values(g: Config, min: int, rank: map<Layer, nat>): map<Layer, int>
    requires g.Valid() && g.Acyclic(rank)
  {
    map c | c in g.layers && Value(g, min, rank, c).Some? :: Value(g, min, rank, c).value
  }

  lemma MaxGrows(m: int, min: int, deps: seq<Layer>, p: map<Layer, int>, d: Layer)
    requires IsMax(m, min, deps, p) && d in p
    ensures IsMax(if p[d] > m then p[d] else m, min, deps + [d], p)
  {
    assert d in deps + [d];
    assert forall e :: e in deps ==> e in deps + [d];
  }

  lemma {:induction false} TopIsMax(g: Config, min: int, rank: map<Layer, nat>, c: Layer, k: nat)
    requires g.Valid() && g.Acyclic(rank) && c in g.layers && !g.Fixed(c) && k <= |g.depends[c]|
    ensures Top(g, min, rank, c, k).Some? ==>
      IsMax(Top(g, min, rank, c, k).value, min, g.depends[c][..k], Values(g, min, rank))
    ensures Top(g, min, rank, c, k).None? ==> exists d :: d in g.depends[c] && d !in Values(g, min, rank)
  {
    if k > 0 {
      TopIsMax(g, min, rank, c, k - 1);
      var p, deps, d := Values(g, min, rank), g.depends[c][..k - 1], g.depends[c][k - 1];
      assert g.depends[c][..k] == deps + [d] && d in g.depends[c];
      if Top(g, min, rank, c, k).Some? {
        MaxGrows(Top(g, min, rank, c, k - 1).value, min, deps, p, d);
      }
    }
  }

  lemma ValuesSolve(g: Config, min: int, rank: map<Layer, nat>)
    requires g.Valid() && g.Acyclic(rank)
    ensures Solves(g, min, Values(g, min, rank))
  {
    var p := Values(g, min, rank);
    forall c | c in p ensures SolvesAt(g, min, p, c) {
      if !g.Fixed(c) {
        TopIsMax(g, min, rank, c, |g.depends[c]|);
        assert g.depends[c][..|g.depends[c]|] == g.depends[c];
      }
    }
  }

  /** Every solution is part of the calculated one. */
  lemma {:induction false} SolvedIsCalculated(g: Config, min: int, rank: map<Layer, nat>, p: map<Layer, int>, c: Layer)
    requires g.Valid() && g.Acyclic(rank) && Solves(g, min, p) && c in p
    ensures c in g.layers && Value(g, min, rank, c) == Some(p[c])
    decreases if c in rank then rank[c] else 0
  {
    assert SolvesAt(g, min, p, c);
    if !g.Fixed(c) {
      forall d | d in g.depends[c] ensures d in Values(g, min, rank) {
        assert SolvesAt(g, min, p, d);
        SolvedIsCalculated(g, min, rank, p, d);
      }
      TopIsMax(g, min, rank, c, |g.depends[c]|);
    }
    ValuesSolve(g, min, rank);
    SolutionUnique(g, min, rank, p, Values(g, min, rank), c);
  }

  /** The explicit priorities of some layers, in order. */
  function ExplicitIn(collections: seq<Layer>, explicit: map<Layer, int>): seq<int> {
    if collections == [] then []
    else
      var last := collections[|collections| - 1];
      ExplicitIn(collections[..|collections| - 1], explicit) + if last in explicit then [explicit[last]] else []
  }

  function Configured(collections: seq<Layer>, explicit: map<Layer, int>, depends: map<Layer, seq<Layer>>): Config {
    Config((set c | c in collections), explicit, depends)
  }

  /** The first loop over the layers. */
  method MinExplicit(collections: seq<Layer>, explicit: map<Layer, int>) returns (minPrio: int)
    ensures minPrio == MinPrio(ExplicitIn(collections, explicit))
  {
    minPrio := 0;
    for i := 0 to |collections|
      invariant minPrio == MinPrio(ExplicitIn(collections[..i], explicit))
    {
      assert collections[..i + 1][..i] == collections[..i];
      ghost var front := ExplicitIn(collections[..i], explicit);
      var c := collections[i];
      assert front + [] == front;
      if c in explicit {
        assert (front + [explicit[c]])[..|front|] == front;
        var prio := explicit[c];
        if minPrio == 0 || prio < minPrio {
          minPrio := prio;
        }
      }
    }
    assert collections[..|collections|] == collections;
  }

  /** The priorities that `handleCollections(collections)` stores; false is the KeyError. */
  method HandleCollections(collections: seq<Layer>, explicit: map<Layer, int>, depends: map<Layer, seq<Layer>>, ghost rank: map<Layer, nat>)
    returns (ok: bool, priorities: map<Layer, Option<int>>)
    requires Configured(collections, explicit, depends).Valid() && Configured(collections, explicit, depends).Acyclic(rank)
    ensures ok ==> exists p ::
      && Solves(Configured(collections, explicit, depends), MinPrio(ExplicitIn(collections, explicit)), p)
      && forall c :: (c in collections <==> c in p) && (c in p ==> c in priorities && priorities[c] == Some(p[c]))
    ensures !ok ==> forall p :: Solves(Configured(collections, explicit, depends), MinPrio(ExplicitIn(collections, explicit)), p) ==>
      exists c :: c in collections && c !in p
  {
    hide Value, Top, Solves, MinPrio, ExplicitIn;
    var minPrio := MinExplicit(collections, explicit);
    var g := Configured(collections, explicit, depends);
    var state := new Collections(g, minPrio, rank);
    ok := state.CalcAll(collections);
    ghost var p := Values(g, minPrio, rank);
    ValuesSolve(g, minPrio, rank);
    if ok {
      priorities := state.prio;
    } else {
      priorities := map[];
      ghost var c :| c in collections && c !in p;
      forall q | Solves(g, minPrio, q) ensures c !in q {
        if c in q {
          SolvedIsCalculated(g, minPrio, rank, q, c);
        }
      }
    }
  }

  /**
   * If the explicit priorities are plain, as positive ones are, the order of BBFILE_COLLECTIONS does not
   * matter to the priorities.
   */
  lemma {:induction false} OrderIndependent(l1: seq<Layer>, l2: seq<Layer>, explicit: map<Layer, int>, depends: map<Layer, seq<Layer>>,
                         rank: map<Layer, nat>, p1: map<Layer, int>, p2: map<Layer, int>, c: Layer)
    requires (forall x :: x in l1 <==> x in l2) && Plain(ExplicitIn(l1, explicit))
    requires Configured(l1, explicit, depends).Valid() && Configured(l1, explicit, depends).Acyclic(rank)
    requires Solves(Configured(l1, explicit, depends), MinPrio(ExplicitIn(l1, explicit)), p1)
    requires Solves(Configured(l2, explicit, depends), MinPrio(ExplicitIn(l2, explicit)), p2)
    requires c in p1 && c in p2
    ensures p1[c] == p2[c]
  {
    forall x ensures x in ExplicitIn(l1, explicit) <==> x in ExplicitIn(l2, explicit) {
      ExplicitElements(l1, explicit, x);
      ExplicitElements(l2, explicit, x);
    }
    hide ExplicitIn, MinPrio, SolvesAt, Plain, Config.Acyclic;
    PlainOrder(ExplicitIn(l1, explicit), ExplicitIn(l2, explicit));
    assert Configured(l1, explicit, depends) == Configured(l2, explicit, depends);
    SolutionUnique(Configured(l1, explicit, depends), MinPrio(ExplicitIn(l1, explicit)), rank, p1, p2, c);
  }

  lemma {:induction false} ExplicitElements(l: seq<Layer>, explicit: map<Layer, int>, x: int)
    ensures x in ExplicitIn(l, explicit) <==> exists c :: c in l && c in explicit && explicit[c] == x
  {
    if l != [] {
      ExplicitElements(l[..|l| - 1], explicit, x);
      assert forall c :: c in l <==> c in l[..|l| - 1] || c == l[|l| - 1];
    }
  }

  lemma ExplicitOneMore(front: seq<Layer>, c: Layer, explicit: map<Layer, int>)
    ensures var before := ExplicitIn(front, explicit);
            ExplicitIn(front + [c], explicit) == if c in explicit then before + [explicit[c]] else before
    ensures var before := ExplicitIn(front, explicit);
            MinPrio(ExplicitIn(front + [c], explicit)) ==
            if c in explicit then MinStep(MinPrio(before), explicit[c]) else MinPrio(before)
  {
    assert (front + [c])[..|front|] == front;
    var before := ExplicitIn(front, explicit);
    assert before + [] == before;
    if c in explicit {
      assert (before + [explicit[c]])[..|before|] == before;
    }
  }

  lemma ThreeMinPrio(a: Layer, b: Layer, c: Layer, explicit: map<Layer, int>)
    requires a in explicit && b in explicit && c !in explicit
    ensures MinPrio(ExplicitIn([a, b, c], explicit)) == MinStep(MinStep(0, explicit[a]), explicit[b])
  {
    hide ExplicitIn, MinPrio, MinStep;
    assert [] + [a] == [a] && [a] + [b] == [a, b] && [a, b] + [c] == [a, b, c];
    ExplicitOneMore([], a, explicit);
    ExplicitOneMore([a], b, explicit);
    ExplicitOneMore([a, b], c, explicit);
    NoneMinPrio(explicit);
  }

  lemma NoneMinPrio(explicit: map<Layer, int>)
    ensures MinPrio(ExplicitIn([], explicit)) == 0
  {
  }

  lemma AloneIsMinPlusOne(g: Config, min: int, p: map<Layer, int>)
    requires Solves(g, min, p)
    ensures forall c :: c in p && !g.Fixed(c) && g.depends[c] == [] ==> p[c] == min + 1
  {
    forall c | c in p && !g.Fixed(c) && g.depends[c] == [] ensures p[c] == min + 1 {
      assert SolvesAt(g, min, p, c);
    }
  }

  /**
   * An explicit priority of zero is not kept, and makes the order matter: with 0 for a and more for b, a
   * third layer without dependencies comes out above b or below it.
   */
  lemma ZeroIsNotKept(a: Layer, b: Layer, c: Layer, prio: int, pa: map<Layer, int>, pb: map<Layer, int>)
    requires a != b && b != c && c != a && prio > 0 && a in pa && c in pa && a in pb && c in pb
    requires var depends, explicit := map[a := [], b := [], c := []], map[a := 0, b := prio];
             && Solves(Configured([a, b, c], explicit, depends), MinPrio(ExplicitIn([a, b, c], explicit)), pa)
             && Solves(Configured([b, a, c], explicit, depends), MinPrio(ExplicitIn([b, a, c], explicit)), pb)
    ensures pa[a] == pa[c] == prio + 1 && pb[a] == pb[c] == 1
  {
    var depends, explicit := map[a := [], b := [], c := []], map[a := 0, b := prio];
    ThreeMinPrio(a, b, c, explicit);
    ThreeMinPrio(b, a, c, explicit);
    hide ExplicitIn, MinPrio;
    AloneIsMinPlusOne(Configured([a, b, c], explicit, depends), prio, pa);
    AloneIsMinPlusOne(Configured([b, a, c], explicit, depends), 0, pb);
  }
}
