// The override index (`overridedata`): which override-qualified definitions a variable has.
module OverrideIndex {
  import opened PyStrings
  import opened Options
  import opened DataTypes

  type Index = map<Name, seq<Entry>>

  /** `__override_regexp__` looks at the first character of the override only. */
  predicate OverrideStart(c: string) {
    c != "" && ('a' <= c[0] <= 'z' || '0' <= c[0] <= '9')
  }

  /** The entry under which v is registered with its colon-prefix of k components. */
  function EntryAt(v: Name, k: nat): Entry
    requires k <= |v|
  {
    Entry(v, v[k..])
  }

  /** Does the loop over the colons of v, from the right, get as far as the prefix of k components? */
  ghost predicate Reached(v: Name, k: nat) {
    && 1 <= k < |v|
    && (forall j :: k <= j < |v| ==> OverrideStart(v[j]))
    && (k == 1 && v[0] == "" ==> |v| == 2)
  }

  function Register(index: Index, n: Name, e: Entry): Index {
    index[n := Added(ListAt(index, n), e)]
  }

  function ListAt(index: Index, n: Name): seq<Entry> {
    if n in index then index[n] else []
  }

  function Added(es: seq<Entry>, e: Entry): seq<Entry> {
    if e in es then es else es + [e]
  }

  /** The loop of `_setvar_update_overrides`, from the prefix of k components down. */
  function RegisterFrom(index: Index, v: Name, k: nat): Index
    requires k < |v|
    decreases k
  {
    if k == 0 || !OverrideStart(v[k]) || (k == 1 && v[0] == "" && |v| != 2) then index
    else RegisterFrom(Register(index, v[..k], EntryAt(v, k)), v, k - 1)
  }

  /**
   * `_setvar_update_overrides(v)`. A name without a colon is cut one character short instead of at a
   * colon, since `rfind` then answers -1.
   */
  function Update(index: Index, v: Name): Index
    requires v != []
  {
    if |v| > 1 then RegisterFrom(index, v, |v| - 1)
    else if OverrideStart(v[0]) then Register(index, [v[0][..|v[0]| - 1]], Entry(v, v))
    else index
  }

  function Deregister(index: Index, n: Name, e: Entry): Index {
    if n in index then index[n := WithoutFirst(index[n], e)] else index
  }

  /** The loop of delVar, from the prefix of k components down. */
  function DeregisterFrom(index: Index, v: Name, k: nat): Index
    requires k < |v|
    decreases k
  {
    if k == 0 || !OverrideStart(v[k]) || (k == 1 && v[0] == "" && |v| != 2) then index
    else DeregisterFrom(Deregister(index, v[..k], EntryAt(v, k)), v, k - 1)
  }

  /** What delVar(v) does to the index. */
  function Forget(index: Index, v: Name): Index
    requires v != []
  {
    if |v| > 1 then DeregisterFrom(index - {v}, v, |v| - 1) else index - {v}
  }

  // ---- the index invariant ----

  /** Every entry [r, o] of v satisfies r = v:o, is one the loops reach, and occurs once. */
  ghost predicate Sound(index: Index) {
    forall n :: n in index ==> SoundList(n, index[n])
  }

  ghost predicate SoundList(n: Name, es: seq<Entry>) {
    Distinct(es) && forall e :: e in es ==> |n| < |e.r| && e.r == n + e.o && Reached(e.r, |n|)
  }

  /** Is n one of the prefixes that the loop reaches when it starts at the prefix of k components? */
  ghost predicate Hit(v: Name, k: nat, n: Name)
    requires k < |v|
  {
    && 1 <= |n| <= k && n == v[..|n|]
    && (forall j :: |n| <= j <= k ==> OverrideStart(v[j]))
    && (|n| == 1 && v[0] == "" ==> |v| == 2)
  }

  lemma HitStep(v: Name, k: nat, n: Name)
    requires k < |v|
    ensures k == 0 || !OverrideStart(v[k]) || (k == 1 && v[0] == "" && |v| != 2) ==> !Hit(v, k, n)
    ensures k > 0 && OverrideStart(v[k]) && !(k == 1 && v[0] == "" && |v| != 2) ==>
              (Hit(v, k, n) <==> n == v[..k] || Hit(v, k - 1, n)) && !Hit(v, k - 1, v[..k])
  {
  }

  lemma RegisterAt(index: Index, m: Name, e: Entry, n: Name)
    ensures n == m ==> n in Register(index, m, e) && ListAt(Register(index, m, e), n) == Added(ListAt(index, n), e)
    ensures n != m ==> ListAt(Register(index, m, e), n) == ListAt(index, n)
    ensures n != m ==> (n in Register(index, m, e) <==> n in index)
  {
  }

  lemma {:induction false} RegisterFromMiss(index: Index, v: Name, k: nat, n: Name)
    requires k < |v| && !Hit(v, k, n)
    ensures ListAt(RegisterFrom(index, v, k), n) == ListAt(index, n)
    ensures n in RegisterFrom(index, v, k) <==> n in index
    decreases k
  {
    HitStep(v, k, n);
    if k == 0 || !OverrideStart(v[k]) || (k == 1 && v[0] == "" && |v| != 2) {
    } else {
      assert !Hit(v, k-1, n);
      var m, e := v[..k], EntryAt(v, k);
      assert n != m;
      var mid := Register(index, m, e);
      assert ListAt(mid, n) == ListAt(index, n) && (n in mid <==> n in index) by { RegisterAt(index, m, e, n); }
      RegisterFromMiss(mid, v, k - 1, n);
      assert RegisterFrom(index, v, k) == RegisterFrom(mid, v, k-1);
    }
  }

  lemma {:induction false} RegisterFromHit(index: Index, v: Name, k: nat, n: Name)
    requires k < |v| && Hit(v, k, n)
    ensures n in RegisterFrom(index, v, k)
    ensures ListAt(RegisterFrom(index, v, k), n) == Added(ListAt(index, n), EntryAt(v, |n|))
    decreases k
  {
    HitStep(v, k, n);
    RegisterAt(index, v[..k], EntryAt(v, k), n);
    var mid := Register(index, v[..k], EntryAt(v, k));
    if n == v[..k] {
      assert |n| == k;
      RegisterFromMiss(mid, v, k - 1, n);
    } else {
      RegisterFromHit(mid, v, k - 1, n);
    }
  }

  /** `_setvar_update_overrides` on a qualified name: exactly the reached prefixes gain the entry. */
  lemma UpdateAt(index: Index, v: Name, n: Name)
    requires |v| > 1
    ensures var r := Update(index, v);
            if n <= v && Reached(v, |n|)
            then
              var es, e := ListAt(index, n), Entry(v, v[|n|..]);
              n in r && ListAt(r, n) == if e in es then es else es + [e]
            else (n in r <==> n in index) && ListAt(r, n) == ListAt(index, n)
  {
    assert n <= v ==> n == v[..|n|];
    if n <= v && Reached(v, |n|) {
      RegisterFromHit(index, v, |v| - 1, n);
    } else {
      RegisterFromMiss(index, v, |v| - 1, n);
    }
  }

  lemma {:induction false} RemoveFirstAt(es: seq<Entry>, e: Entry)
    requires Distinct(es)
    ensures Distinct(WithoutFirst(es, e))
    ensures forall x :: x in WithoutFirst(es, e) <==> x in es && x != e
    ensures e !in es ==> WithoutFirst(es, e) == es
  {
    if es != [] {
      assert es == [es[0]] + es[1..];
      RemoveFirstAt(es[1..], e);
      var rest := WithoutFirst(es[1..], e);
      if es[0] == e {
        assert e !in es[1..];
      } else {
        assert es[0] !in es[1..];
        assert forall i :: 0 <= i < |rest| ==> rest[i] in rest;
      }
    }
  }

  lemma DeregisterAt(index: Index, m: Name, e: Entry, n: Name)
    ensures n in Deregister(index, m, e) <==> n in index
    ensures n == m ==> ListAt(Deregister(index, m, e), n) == WithoutFirst(ListAt(index, n), e)
    ensures n != m ==> ListAt(Deregister(index, m, e), n) == ListAt(index, n)
  {
  }

  lemma {:induction false} DeregisterFromMiss(index: Index, v: Name, k: nat, n: Name)
    requires k < |v| && !Hit(v, k, n)
    ensures ListAt(DeregisterFrom(index, v, k), n) == ListAt(index, n)
    ensures n in DeregisterFrom(index, v, k) <==> n in index
    decreases k
  {
    HitStep(v, k, n);
    if k == 0 || !OverrideStart(v[k]) || (k == 1 && v[0] == "" && |v| != 2) {
    } else {
      var m, e := v[..k], EntryAt(v, k);
      assert n != m;
      var mid := Deregister(index, m, e);
      assert ListAt(mid, n) == ListAt(index, n) && (n in mid <==> n in index) by { DeregisterAt(index, m, e, n); }
      DeregisterFromMiss(mid, v, k - 1, n);
      assert DeregisterFrom(index, v, k) == DeregisterFrom(mid, v, k - 1);
    }
  }

  lemma {:induction false} DeregisterFromHit(index: Index, v: Name, k: nat, n: Name)
    requires k < |v| && Hit(v, k, n)
    ensures n in DeregisterFrom(index, v, k) <==> n in index
    ensures ListAt(DeregisterFrom(index, v, k), n) == WithoutFirst(ListAt(index, n), EntryAt(v, |n|))
    decreases k
  {
    HitStep(v, k, n);
    var m, e := v[..k], EntryAt(v, k);
    var mid := Deregister(index, m, e);
    DeregisterAt(index, m, e, n);
    if n == m {
      assert |n| == k;
      DeregisterFromMiss(mid, v, k - 1, n);
    } else {
      DeregisterFromHit(mid, v, k - 1, n);
    }
    assert DeregisterFrom(index, v, k) == DeregisterFrom(mid, v, k - 1);
  }

  lemma ForgetAt(index: Index, v: Name, n: Name)
    requires v != []
    ensures var r := Forget(index, v);
            && (n in r <==> n in index && n != v)
            && (n != v ==>
                  ListAt(r, n) == if n <= v && Reached(v, |n|) then WithoutFirst(ListAt(index, n), EntryAt(v, |n|)) else ListAt(index, n))
  {
    assert n <= v ==> n == v[..|n|];
    if |v| > 1 {
      var rest := index - {v};
      if n <= v && Reached(v, |n|) {
        DeregisterFromHit(rest, v, |v| - 1, n);
      } else {
        DeregisterFromMiss(rest, v, |v| - 1, n);
      }
    }
  }

  /**
   * Registering a name keeps the index sound exactly when the name has a colon or does not start
   * like an override.
   */
  lemma UpdateSoundIff(index: Index, v: Name)
    requires Sound(index) && v != []
    ensures Sound(Update(index, v)) <==> |v| > 1 || !OverrideStart(v[0])
  {
    var r := Update(index, v);
    if |v| > 1 {
      forall n | n in r ensures SoundList(n, r[n]) {
        UpdateAt(index, v, n);
        if n <= v && Reached(v, |n|) {
          var e := EntryAt(v, |n|);
          assert v == n + v[|n|..];
          assert n in index ==> SoundList(n, index[n]);
        } else {
          assert SoundList(n, index[n]);
        }
      }
    } else if OverrideStart(v[0]) {
      var n := [v[0][..|v[0]| - 1]];
      assert Entry(v, v) in r[n];
      assert |n| == |v|;
      assert !SoundList(n, r[n]);
    }
  }

  /** delVar keeps the index sound and leaves no entry for the deleted name in any list. */
  lemma ForgetSound(index: Index, v: Name)
    requires Sound(index) && v != []
    ensures Sound(Forget(index, v))
    ensures v !in Forget(index, v)
    ensures forall n, e :: n in Forget(index, v) && e in Forget(index, v)[n] ==> e.r != v
  {
    var r := Forget(index, v);
    forall n | n in r ensures SoundList(n, r[n]) && forall e: Entry :: e in r[n] ==> e.r != v {
      ForgetAt(index, v, n);
      assert n != v && n in index && SoundList(n, index[n]);
      if n <= v && Reached(v, |n|) {
        RemoveFirstAt(index[n], EntryAt(v, |n|));
      }
    }
    ForgetAt(index, v, v);
  }

  /** The entry for a qualified name is in the list of each reached prefix after registration. */
  lemma UpdateRegisters(index: Index, v: Name, k: nat)
    requires |v| > 1 && Reached(v, k)
    ensures v[..k] in Update(index, v) && EntryAt(v, k) in Update(index, v)[v[..k]]
  {
    UpdateAt(index, v, v[..k]);
  }
}
