// OVERRIDES is itself a variable whose value may depend on the overrides: need_overrides iterates.
module ActiveOverrides {
  import opened PyStrings
  import opened Options
  import opened DataTypes
  import opened OverrideIndex
  import opened Evaluation

  const OVERRIDES: Name := ["OVERRIDES"]

  /** The characters of a value; a reference that could not be expanded stays as "${name}". */
  function Render(t: Text): string {
    if t == [] then ""
    else (match t[0] case Ch(c) => [c] case Ref(n) => "${" + Join(n) + "}") + Render(t[1..])
  }

  function SplitValue(v: Option<Text>): seq<string> {
    Split(Render(OrEmpty(v)))
  }

  /** The override list that OVERRIDES evaluates to while o is the override list. */
  ghost function Next(s: Store, rank: Name -> nat, o: seq<string>): seq<string>
    requires Sound(s.index) && Ranked(s, rank)
  {
    SplitValue(Value(s, o, rank, OVERRIDES))
  }

  ghost function NextFn(s: Store, rank: Name -> nat): seq<string> -> seq<string>
    requires Sound(s.index) && Ranked(s, rank)
  {
    o => Next(s, rank, o)
  }

  /** f, k times, from the empty list. */
  ghost function Iterate(f: seq<string> -> seq<string>, k: nat): seq<string> {
    if k == 0 then [] else f(Iterate(f, k - 1))
  }

  ghost predicate Still(f: seq<string> -> seq<string>, k: nat) {
    Iterate(f, k + 1) == Iterate(f, k)
  }

  /** The first iterate in k..5 that f leaves alone. */
  ghost function SettleFrom(f: seq<string> -> seq<string>, k: nat): Option<seq<string>>
    decreases 6 - k
  {
    if k > 5 then None
    else if Still(f, k) then Some(Iterate(f, k))
    else SettleFrom(f, k + 1)
  }

  /** What need_overrides leaves as the override list, None if it gives up. */
  ghost function Settle(s: Store, rank: Name -> nat): Option<seq<string>>
    requires Sound(s.index) && Ranked(s, rank)
  {
    SettleFrom(NextFn(s, rank), 1)
  }

  lemma {:induction false} SettleFromIff(f: seq<string> -> seq<string>, k: nat)
    ensures SettleFrom(f, k).Some? <==> exists j: nat :: k <= j <= 5 && Still(f, j)
    ensures SettleFrom(f, k).Some? ==> exists j: nat :: k <= j <= 5 && Still(f, j) && SettleFrom(f, k).value == Iterate(f, j)
    decreases 6 - k
  {
    if k <= 5 {
      SettleFromIff(f, k + 1);
    }
  }

  lemma {:induction false} IterateStays(f: seq<string> -> seq<string>, j: nat, k: nat)
    requires j <= k && Still(f, j)
    ensures Iterate(f, k) == Iterate(f, j)
    decreases k - j
  {
    if j < k {
      IterateStays(f, j, k - 1);
    }
  }

  /**
   * The iteration settles exactly when one of the first five iterates is left alone by the next one; it
   * then settles on the fixpoint that the sequence reaches.
   */
  lemma SettleIff(s: Store, rank: Name -> nat)
    requires Sound(s.index) && Ranked(s, rank)
    ensures var f := NextFn(s, rank);
            Settle(s, rank).Some? <==> exists k: nat :: 1 <= k <= 5 && Still(f, k)
    ensures Settle(s, rank).Some? ==>
              var o := Settle(s, rank).value;
              Next(s, rank, o) == o && AllColonFree(o) && forall k: nat :: 5 <= k ==> Iterate(NextFn(s, rank), k) == o
  {
    var f := NextFn(s, rank);
    SettleFromIff(f, 1);
    if Settle(s, rank).Some? {
      var o := Settle(s, rank).value;
      var j: nat :| 1 <= j <= 5 && Still(f, j) && o == Iterate(f, j);
      assert Iterate(f, j + 1) == f(o) == Next(s, rank, o);
      SplitColonFree(Render(OrEmpty(Value(s, o, rank, OVERRIDES))));
      forall k: nat | 5 <= k ensures Iterate(f, k) == o {
        IterateStays(f, j, k);
      }
    }
  }

  lemma {:induction false} IterateSame(f: seq<string> -> seq<string>, g: seq<string> -> seq<string>, k: nat)
    requires forall o :: f(o) == g(o)
    ensures Iterate(f, k) == Iterate(g, k)
  {
    if k > 0 {
      IterateSame(f, g, k - 1);
    }
  }

  lemma {:induction false} SettleFromSame(f: seq<string> -> seq<string>, g: seq<string> -> seq<string>, k: nat)
    requires forall o :: f(o) == g(o)
    ensures SettleFrom(f, k) == SettleFrom(g, k)
    decreases 6 - k
  {
    if k <= 5 {
      IterateSame(f, g, k);
      IterateSame(f, g, k + 1);
      SettleFromSame(f, g, k + 1);
    }
  }

  /** Changes outside what OVERRIDES can reach do not change what the iteration settles on. */
  lemma SettleFrame(s: Store, s': Store, rank: Name -> nat, rank': Name -> nat, dom: iset<Name>)
    requires Sound(s.index) && Sound(s'.index) && Ranked(s, rank) && Ranked(s', rank')
    requires Closed(s, dom) && AgreeOn(s, s', dom) && OVERRIDES in dom
    ensures Settle(s, rank) == Settle(s', rank')
  {
    forall o ensures NextFn(s, rank)(o) == NextFn(s', rank')(o) {
      ValueFrame(s, s', o, rank, rank', dom, OVERRIDES);
    }
    SettleFromSame(NextFn(s, rank), NextFn(s', rank'), 1);
  }

  /** If the value of OVERRIDES depends on no override, it settles on that. */
  lemma ConstantSettles(s: Store, rk: Name -> nat, l: seq<string>)
    requires Sound(s.index) && Ranked(s, rk) && forall o :: Next(s, rk, o) == l
    ensures Settle(s, rk) == Some(l)
  {
    var f := NextFn(s, rk);
    assert Iterate(f, 1) == f(Iterate(f, 0)) == l;
    assert Iterate(f, 2) == f(Iterate(f, 1)) == l;
    assert Still(f, 1);
  }
}
