// The datastore: variables in layers, an override index, and a cache of expanded values.
module DataStore {
  import opened PyStrings
  import opened Options
  import opened DataTypes
  import opened DataDicts
  import opened OverrideIndex
  import opened OverrideChoice
  import opened Evaluation
  import opened ReadModes
  import opened ActiveOverrides
  import opened Writes

  /** A key of `expand_cache`: a variable name, or a name with a flag in brackets. */
  datatype CacheKey = OfContent(n: Name) | OfFlag(n: Name, f: Flag)

  type Cache = map<CacheKey, Parse>

  /** What evaluation without a cache gives for a key. */
  ghost function Evaluated(s: Store, o: seq<string>, rank: Name -> nat, key: CacheKey): Parse
    requires Sound(s.index) && Ranked(s, rank)
  {
    match key
    case OfContent(n) => ParseOf(s, o, rank, n)
    case OfFlag(n, f) => FlagParseOf(s, o, rank, n, f)
  }

  /** The override lists that may turn out to be in force: all of them until need_overrides has run. */
  ghost predicate Possible(overrides: Option<seq<string>>, o: seq<string>) {
    overrides.Some? ==> overrides.value == o
  }

  /** Every cached record is what evaluation without a cache gives. */
  ghost predicate CoherentWith(cache: Cache, overrides: Option<seq<string>>, s: Store, rank: Name -> nat)
    requires Sound(s.index) && Ranked(s, rank)
  {
    forall key, o :: key in cache && Possible(overrides, o) ==> cache[key] == Evaluated(s, o, rank, key)
  }

  /** A read keeps the override list, or settles it if there was none yet. */
  ghost predicate Advance(s: Store, rank: Name -> nat, before: Option<seq<string>>, was: bool, after: Option<seq<string>>, is_: bool)
    requires Sound(s.index) && Ranked(s, rank)
  {
    if before.Some? then after == before && is_ == was
    else !is_ && (after.None? || after == Settle(s, rank))
  }

  /** A record for n keeps the cache coherent exactly if it is what evaluation without a cache gives. */
  lemma StoredCoherentIff(before: Cache, overrides: Option<seq<string>>, s: Store, rank: Name -> nat, n: Name, p: Parse)
    requires Sound(s.index) && Ranked(s, rank) && CoherentWith(before, overrides, s, rank)
    ensures CoherentWith(before[OfContent(n) := p], overrides, s, rank) <==>
      forall o :: Possible(overrides, o) ==> p == ParseOf(s, o, rank, n)
  {
    hide ParseOf, FlagParseOf;
    var after := before[OfContent(n) := p];
    if CoherentWith(after, overrides, s, rank) {
      forall o | Possible(overrides, o) ensures p == ParseOf(s, o, rank, n) {
        assert after[OfContent(n)] == Evaluated(s, o, rank, OfContent(n));
      }
    }
  }

  /** A plain read does. */
  lemma StoredPlainly(before: Cache, overrides: Option<seq<string>>, s: Store, rank: Name -> nat, n: Name, p: Parse)
    requires Sound(s.index) && Ranked(s, rank) && CoherentWith(before, overrides, s, rank)
    requires forall o :: Possible(overrides, o) ==> p == ParseIn(s, o, rank, n, false, false)
    ensures CoherentWith(before[OfContent(n) := p], overrides, s, rank)
    ensures forall o :: Possible(overrides, o) ==> p == ParseOf(s, o, rank, n)
  {
    hide ParseOf, ParseIn;
    forall o | Possible(overrides, o) ensures p == ParseOf(s, o, rank, n) {
      PlainMode(s, o, rank, n);
    }
    StoredCoherentIff(before, overrides, s, rank, n, p);
  }

  /** A read adds cache entries for variables in dom only. */
  ghost predicate KeysWithin(before: Cache, after: Cache, dom: iset<Name>) {
    forall key :: key in after && key !in before ==> key.OfContent? && key.n in dom
  }

  class DataSmart {
    const dict: Layer
    var overridedata: map<Name, ListObj<Entry>>
    var overrides: Option<seq<string>>
    var overridesset: set<string>
    var overridevars: set<Name>
    var inoverride: bool
    var expandCache: Cache

    ghost var index: map<Name, seq<Entry>>
    ghost var rank: Name -> nat
    ghost var Repr: set<object>

    /** The contents: the variables that can be seen, and the override index. */
    ghost function Contents(): Store
      reads `index, dict
    {
      Store(dict.seen, index)
    }

    /** The part of the invariant that reads do not touch; s is the contents. */
    ghost predicate Core(s: Store, rk: Name -> nat)
      reads `overridedata, `index, `rank, `Repr, Repr
    {
      && Shape()
      && s == Store(dict.seen, index) && rk == rank
      && Sound(s.index) && Ranked(s, rk) && PlainRemoves(s)
    }

    /** The objects hold together; index is what the lists in overridedata say. */
    ghost predicate Shape()
      reads `overridedata, `index, `Repr, Repr
    {
      && this !in Repr && dict in Repr && dict.Repr <= Repr && dict.Valid()
      && (forall n :: n in overridedata <==> n in index)
      && (forall n :: n in overridedata ==> overridedata[n] in Repr && overridedata[n].items == index[n])
    }

    /** The part of the invariant about the override list. */
    ghost predicate Flow()
      reads `overrides, `overridesset, `inoverride
    {
      && (overrides.Some? ==> overridesset == SeqSet(overrides.value))
      && (overrides.None? ==> !inoverride)
    }

    ghost predicate Coherent(s: Store, rk: Name -> nat)
      requires Sound(s.index) && Ranked(s, rk)
      reads `overrides, `expandCache
    {
      CoherentWith(expandCache, overrides, s, rk)
    }

    constructor ()
      ensures Valid() && Contents() == Store(map[], map[]) && overrides == None && expandCache == map[]
      ensures fresh(Repr) && fresh(dict) && dict.own == {} && overridevars == {["OVERRIDES"], ["FILE"]}
    {
      dict := new Layer(null);
      overridedata, index, rank := map[], map[], (n: Name) => 0;
      overrides, overridesset, inoverride := None, {}, false;
      overridevars := {["OVERRIDES"], ["FILE"]};
      expandCache := map[];
      new;
      Repr := dict.Repr;
      Begins(Store(map[], map[]), rank);
    }

    // ---- reading ----

    /** `need_overrides` */
    method NeedOverrides(ghost s: Store, ghost rk: Name -> nat, ghost dom: iset<Name>) returns (ok: bool)
      requires Sound(s.index) && Ranked(s, rk) && this !in Repr && Core(s, rk) && Flow() && Coherent(s, rk)
      requires Closed(s, dom) && OVERRIDES in dom
      modifies `overrides, `overridesset, `inoverride, `expandCache
      ensures Core(s, rk) && Flow()
      ensures ok <==> old(overrides).Some? || Settle(s, rk).Some?
      ensures old(overrides).Some? ==> expandCache == old(expandCache)
      ensures ok ==> overrides.Some? && Coherent(s, rk)
      ensures ok ==> Advance(s, rk, old(overrides), old(inoverride), overrides, inoverride)
      ensures ok ==> KeysWithin(old(expandCache), expandCache, dom)
      decreases if overrides.None? then 1 else 0, 0, 0
    {
      hide Value, ParseOf, FlagParseOf, Evaluated, Core, Sound, Ranked, Closed, Split, Render, OrEmpty, SplitValue;
      if overrides.Some? {
        return true;
      }
      if inoverride {
        return false;
      }

      var count := 0;
      ghost var f := NextFn(s, rk);
      while count < 5
        invariant 0 <= count <= 5
        invariant Core(s, rk) && Flow() && !inoverride
        invariant count == 0 ==> overrides.None? && Coherent(s, rk)
        invariant count > 0 ==> OfContent(OVERRIDES) in expandCache
        invariant count > 0 ==> SplitValue(expandCache[OfContent(OVERRIDES)].value) == Iterate(f, count + 1)
        invariant SettleFrom(f, 1) == SettleFrom(f, count + 1)
      {
        var newoverrides := OverridesRound(count, s, rk, dom);
        if newoverrides == overrides.value {
          return true;
        }
        overrides := Some(newoverrides);
        overridesset := SeqSetOf(newoverrides);
        count := count + 1;
      }
      return false;
    }

    /**
     * One round of need_overrides. The first read is made with the override list reset to []; from the
     * second round on it is answered by the cache entry that the previous round left.
     */
    method OverridesRound(ghost k: nat, ghost s: Store, ghost rk: Name -> nat, ghost dom: iset<Name>)
      returns (newoverrides: seq<string>)
      requires Sound(s.index) && Ranked(s, rk) && this !in Repr && Core(s, rk) && Flow() && !inoverride
      requires Closed(s, dom) && OVERRIDES in dom
      requires if k == 0 then overrides.None? && Coherent(s, rk)
               else OfContent(OVERRIDES) in expandCache &&
                    SplitValue(expandCache[OfContent(OVERRIDES)].value) == Iterate(NextFn(s, rk), k + 1)
      modifies `overrides, `overridesset, `inoverride, `expandCache
      ensures Core(s, rk) && Flow() && !inoverride && Coherent(s, rk)
      ensures overrides == Some(Iterate(NextFn(s, rk), k + 1))
      ensures newoverrides == Iterate(NextFn(s, rk), k + 2)
      ensures OfContent(OVERRIDES) in expandCache && SplitValue(expandCache[OfContent(OVERRIDES)].value) == newoverrides
      ensures KeysWithin(map[], expandCache, dom)
      decreases 0, rk(OVERRIDES), 7
    {
      hide Value, ParseOf, FlagParseOf, Evaluated, Core, Sound, Ranked, Closed, Split, Render, OrEmpty, SplitValue;
      inoverride := true;
      overrides := Some([]);
      overridesset := {};
      var ok, v := GetVar(OVERRIDES, s, rk, dom);
      overrides := Some(SplitValue(v));
      overridesset := SeqSetOf(SplitValue(v));
      inoverride := false;
      expandCache := map[];
      ok, v := GetVar(OVERRIDES, s, rk, dom);
      newoverrides := SplitValue(v);
    }

    /** The override branch of getVarFlag: the chosen definition, if any, is read unexpanded. */
    method ReadOverride(n: Name, ghost s: Store, ghost rk: Name -> nat, ghost dom: iset<Name>)
      returns (ok: bool, over: Option<Text>)
      requires Sound(s.index) && Ranked(s, rk) && this !in Repr && Core(s, rk) && Flow() && Coherent(s, rk)
      requires Closed(s, dom) && OVERRIDES in dom && n in dom
      requires n in overridedata
      modifies `overrides, `overridesset, `inoverride, `expandCache
      ensures Core(s, rk) && Flow()
      ensures ok ==> Coherent(s, rk) && KeysWithin(old(expandCache), expandCache, dom)
      ensures ok ==> Advance(s, rk, old(overrides), old(inoverride), overrides, inoverride)
      ensures !ok ==> old(overrides).None? && Settle(s, rk).None?
      ensures ok ==> overrides.Some? && over == OverrideText(s, overrides.value, n)
      decreases if overrides.None? then 1 else 0, rk(n), 2
    {
      hide Value, ParseOf, FlagParseOf, Evaluated, Core, Sound, Ranked, Closed;
      ReadableEntries(n, s, rk, dom);
      var entries := overridedata[n].items;
      over := None;
      ok := NeedOverrides(s, rk, dom);
      if !ok {
        return;
      }
      var found := ChooseOverride(entries, overrides.value, overridesset);
      if found.Some? {
        ChoiceIsEntry(entries, overrides.value);
        ok, over := GetParsed(found.value, s, rk, dom);
      }
    }

    lemma ReadableEntries(n: Name, s: Store, rk: Name -> nat, dom: iset<Name>)
      requires Sound(s.index) && Ranked(s, rk) && Core(s, rk) && Closed(s, dom) && n in dom && n in overridedata
      ensures overridedata[n].items == EntriesAt(s, n)
      ensures forall e :: e in EntriesAt(s, n) ==> e.r in dom && rk(e.r) < rk(n)
    {
    }

    /** The variable's own text, for a dictionary found by `_findVar`. */
    method OwnText(local: VarDict?, ghost fl: Flags, noweakdefault: bool) returns (value: Option<Text>)
      requires if local == null then fl == NO_FLAGS else local.Valid() && local.view == fl
      ensures value == if Content in fl.text then Some(fl.text[Content])
                       else if DefaultVal in fl.text && !noweakdefault then Some(fl.text[DefaultVal]) else None
    {
      value := None;
      if local != null {
        if Content in local.text {
          value := Some(local.text[Content]);
        } else if DefaultVal in local.text && !noweakdefault {
          value := Some(local.text[DefaultVal]);
        }
      }
    }

    /** The loop over an operation list: the texts that apply go behind the value, or before it. */
    static method ApplyAll(value: Option<Text>, ops: seq<Op>, before: bool, overrides: seq<string>)
      returns (r: Option<Text>)
      ensures r == if before then Prepended(value, ops, overrides) else Appended(value, ops, overrides)
    {
      r := value;
      for i := 0 to |ops|
        invariant r == if before then Prepended(value, ops[..i], overrides) else Appended(value, ops[..i], overrides)
      {
        assert ops[..i + 1][..i] == ops[..i];
        var op := ops[i];
        var match_ := true;
        if op.add != [] && op.add != [""] {
          if exists o2 :: o2 in op.add && o2 !in overrides {
            match_ := false;
          }
        }
        if match_ {
          if r.None? {
            r := Some([]);
          }
          r := Some(if before then op.text + r.value else r.value + op.text);
        }
      }
      assert ops[..|ops|] == ops;
    }

    /** The `:append` branch of getVarFlag (before is false) or its `:prepend` branch. */
    method ApplyOps(value: Option<Text>, local: VarDict?, before: bool, ghost n: Name, ghost s: Store, ghost rk: Name -> nat, ghost dom: iset<Name>)
      returns (ok: bool, r: Option<Text>)
      requires Sound(s.index) && Ranked(s, rk) && this !in Repr && Core(s, rk) && Flow() && Coherent(s, rk)
      requires Closed(s, dom) && OVERRIDES in dom
      requires if local == null then FlagsAt(s, n) == NO_FLAGS else local.Valid() && local.view == FlagsAt(s, n)
      modifies `overrides, `overridesset, `inoverride, `expandCache
      ensures Core(s, rk) && Flow()
      ensures ok ==> Coherent(s, rk) && KeysWithin(old(expandCache), expandCache, dom)
      ensures ok ==> Advance(s, rk, old(overrides), old(inoverride), overrides, inoverride)
      ensures !ok ==> old(overrides).None? && Settle(s, rk).None?
      ensures ok ==> forall o :: Possible(overrides, o) ==>
                r == if before then Prepended(value, OpsAt(s, n, Prepend), o) else Appended(value, OpsAt(s, n, Append), o)
      decreases if overrides.None? then 1 else 0, 0, 1
    {
      hide Value, ParseOf, FlagParseOf, Evaluated, Core, Sound, Ranked, Closed, Settle;
      var k := if before then Prepend else Append;
      ok, r := true, value;
      if local != null && k in local.ops {
        ghost var v := local.view;
        var ops := local.ops[k].items;
        assert ops == OpsAt(s, n, k);
        ok := NeedOverrides(s, rk, dom);
        if ok {
          r := ApplyAll(value, ops, before, overrides.value);
        }
      }
    }

    /** getVarFlag(n, "_content", False) without its cache and its parsed result: the unexpanded value. */
    method RawValue(n: Name, noweakdefault: bool, parsing: bool, ghost s: Store, ghost rk: Name -> nat, ghost dom: iset<Name>)
      returns (ok: bool, value: Option<Text>)
      requires Sound(s.index) && Ranked(s, rk) && this !in Repr && Core(s, rk) && Flow() && Coherent(s, rk)
      requires Closed(s, dom) && OVERRIDES in dom && n in dom
      modifies `overrides, `overridesset, `inoverride, `expandCache
      ensures Core(s, rk) && Flow()
      ensures ok ==> Coherent(s, rk) && KeysWithin(old(expandCache), expandCache, dom)
      ensures ok ==> Advance(s, rk, old(overrides), old(inoverride), overrides, inoverride)
      ensures !ok ==> old(overrides).None? && Settle(s, rk).None?
      ensures ok ==> forall o :: Possible(overrides, o) ==> value == RawIn(s, o, n, noweakdefault, parsing)
      ensures parsing ==> ok && overrides == old(overrides) && expandCache == old(expandCache)
      decreases if overrides.None? then 1 else 0, rk(n), 3
    {
      hide Value, ParseOf, FlagParseOf, Evaluated, Core, Sound, Ranked, Closed, Settle, Chosen, Appended, Prepended, OverrideText, RawIn, Raw;
      var local := FindVar(n, s, rk);
      ghost var fl := FlagsAt(s, n);
      var over: Option<Text> := None;
      ok := true;
      if !parsing && n in overridedata {
        ok, over := ReadOverride(n, s, rk, dom);
        if !ok {
          return false, None;
        }
      } else {
        NoOverride(s, rk, n);
      }
      value := over;
      if value.None? {
        value := OwnText(local, fl, noweakdefault);
      }
      if !parsing {
        ghost var base := value;
        ok, value := ApplyOps(value, local, false, n, s, rk, dom);
        if !ok {
          return false, None;
        }
        ghost var appended := value;
        ok, value := ApplyOps(value, local, true, n, s, rk, dom);
        if !ok {
          return false, None;
        }
        forall o | Possible(overrides, o) ensures value == RawIn(s, o, n, noweakdefault, parsing) {
          RawIs(s, o, n, noweakdefault);
          assert over == OverrideText(s, o, n) && appended == Appended(base, OpsAt(s, n, Append), o);
        }
      } else {
        forall o ensures value == RawIn(s, o, n, noweakdefault, parsing) {
          ParsingRaw(s, o, n, noweakdefault);
        }
      }
    }

    /** `_findVar` */
    method FindVar(n: Name, ghost s: Store, ghost rk: Name -> nat) returns (local: VarDict?)
      requires Core(s, rk)
      ensures if local == null then n !in s.vars && FlagsAt(s, n) == NO_FLAGS
              else n in s.vars && local.Valid() && local.view == FlagsAt(s, n) && local in Repr && (forall l :: l in local.lists ==> l in Repr)
    {
      local := dict.Find(n);
    }

    lemma NoOverride(s: Store, rk: Name -> nat, n: Name)
      requires Sound(s.index) && Core(s, rk)
      ensures n !in overridedata ==> forall o :: OverrideText(s, o, n) == None
    {
      if n !in overridedata {
        assert EntriesAt(s, n) == [];
      }
    }

    /** One `__expand_var_regexp__.sub(varparse.var_sub, s)`. */
    method Substitute(t: Text, ghost s: Store, ghost rk: Name -> nat, ghost dom: iset<Name>)
      returns (ok: bool, out: Text, refs: set<Name>)
      requires Sound(s.index) && Ranked(s, rk) && this !in Repr && Core(s, rk) && Flow() && Coherent(s, rk)
      requires Closed(s, dom) && OVERRIDES in dom && Within(t, dom)
      modifies `overrides, `overridesset, `inoverride, `expandCache
      ensures Core(s, rk) && Flow()
      ensures ok ==> Coherent(s, rk) && KeysWithin(old(expandCache), expandCache, dom)
      ensures ok ==> Advance(s, rk, old(overrides), old(inoverride), overrides, inoverride)
      ensures !ok ==> old(overrides).None? && Settle(s, rk).None?
      ensures ok ==> refs == Refs(t) && forall o :: Possible(overrides, o) ==> out == Expand(s, o, rk, t)
      decreases if overrides.None? then 1 else 0, Top(t, rk), 0
    {
      hide Value, Expand, Settle, ParseOf, FlagParseOf, Evaluated, Core, Sound, Ranked, Closed;
      ok, out, refs := true, [], {};
      ExpandNothing(s, rk);
      for i := 0 to |t|
        invariant ok && Core(s, rk) && Flow() && Coherent(s, rk) && KeysWithin(old(expandCache), expandCache, dom)
        invariant Advance(s, rk, old(overrides), old(inoverride), overrides, inoverride)
        invariant refs == Refs(t[..i])
        invariant forall o :: Possible(overrides, o) ==> out == Expand(s, o, rk, t[..i])
      {
        var tok := t[i];
        assert t[..i + 1] == t[..i] + [tok];
        RefsOne(t[..i], tok);
        ghost var done := out;
        if tok.Ref? {
          assert Ref(tok.n) in t;
          var v: Option<Text>;
          ok, v := GetVar(tok.n, s, rk, dom);
          if !ok {
            return;
          }
          refs := refs + {tok.n};
          out := out + if v.Some? then v.value else [tok];
        } else {
          out := out + [tok];
        }
        forall o | Possible(overrides, o) ensures out == Expand(s, o, rk, t[..i + 1]) {
          ExpandOne(s, o, rk, t[..i], tok);
          assert done == Expand(s, o, rk, t[..i]);
        }
      }
      assert t[..|t|] == t;
    }

    /** `expandWithRefs`: substitutes until nothing changes any more. */
    method ExpandWithRefs(t: Text, ghost s: Store, ghost rk: Name -> nat, ghost dom: iset<Name>)
      returns (ok: bool, out: Text, refs: set<Name>)
      requires Sound(s.index) && Ranked(s, rk) && this !in Repr && Core(s, rk) && Flow() && Coherent(s, rk)
      requires Closed(s, dom) && OVERRIDES in dom && Within(t, dom)
      modifies `overrides, `overridesset, `inoverride, `expandCache
      ensures Core(s, rk) && Flow()
      ensures ok ==> Coherent(s, rk) && KeysWithin(old(expandCache), expandCache, dom)
      ensures ok ==> Advance(s, rk, old(overrides), old(inoverride), overrides, inoverride)
      ensures !ok ==> old(overrides).None? && Settle(s, rk).None?
      ensures ok ==> forall o :: Possible(overrides, o) ==>
                out == Expand(s, o, rk, t) && refs == Refs(t) + Refs(Expand(s, o, rk, t))
      decreases if overrides.None? then 1 else 0, Top(t, rk), 1
    {
      hide Value, Expand, Settle, ParseOf, FlagParseOf, Evaluated, Core, Sound, Ranked, Closed, Top, Within;
      ok, out, refs := true, t, {};
      ghost var rounds := 0;
      while HasRef(out)
        invariant ok && Core(s, rk) && Flow() && Coherent(s, rk) && KeysWithin(old(expandCache), expandCache, dom)
        invariant Advance(s, rk, old(overrides), old(inoverride), overrides, inoverride)
        invariant 0 <= rounds <= 1 && Within(out, dom) && Top(out, rk) <= Top(t, rk)
        invariant rounds == 0 ==> out == t && refs == {}
        invariant rounds == 1 ==> refs == Refs(t) && forall o :: Possible(overrides, o) ==> out == Expand(s, o, rk, t)
        decreases 2 - rounds
      {
        var olds := out;
        var more: set<Name>;
        ok, out, more := Substitute(olds, s, rk, dom);
        if !ok {
          return;
        }
        refs := refs + more;
        forall o | Possible(overrides, o) ensures out == Expand(s, o, rk, t) {
          ExpandAgain(s, o, rk, dom, t);
          assert rounds == 1 ==> olds == Expand(s, o, rk, t);
        }
        ghost var o := if overrides.Some? then overrides.value else [];
        assert Possible(overrides, o);
        ExpandAgain(s, o, rk, dom, t);
        if out == olds {
          return;
        }
        rounds := rounds + 1;
      }
      forall o | Possible(overrides, o) ensures out == Expand(s, o, rk, t) && Refs(out) == {} && (rounds == 0 ==> Refs(t) == {}) {
        WithoutRefs(s, o, rk, out);
      }
      ghost var o := if overrides.Some? then overrides.value else [];
      assert Possible(overrides, o);
    }

    /** The `:remove` loops: the words that the operations which apply take out. */
    method RemovedWords(ops: seq<Op>, ghost n: Name, ghost s: Store, ghost rk: Name -> nat, ghost dom: iset<Name>)
      returns (ok: bool, words: set<Text>)
      requires Sound(s.index) && Ranked(s, rk) && this !in Repr && Core(s, rk) && Flow() && Coherent(s, rk)
      requires Closed(s, dom) && OVERRIDES in dom && n in dom
      requires ops == OpsAt(s, n, Remove)
      modifies `overrides, `overridesset, `inoverride, `expandCache
      ensures Core(s, rk) && Flow()
      ensures ok ==> Coherent(s, rk) && KeysWithin(old(expandCache), expandCache, dom)
      ensures ok ==> Advance(s, rk, old(overrides), old(inoverride), overrides, inoverride)
      ensures !ok ==> old(overrides).None? && Settle(s, rk).None?
      ensures ok ==> forall o :: Possible(overrides, o) ==>
                (forall i :: 0 <= i < |ops| ==> Below(ops[i].text, rk, rk(n))) && words == RemovedBy(s, o, rk, n, ops)
      decreases if overrides.None? then 1 else 0, rk(n), 3
    {
      hide Value, Expand, Settle, ParseOf, FlagParseOf, Evaluated, Core, Sound, Ranked, Closed, RemovedBy, Words;
      OpsBelow(s, rk, n, Remove);
      OpsWithin(s, dom, n, Remove);
      words := {};
      ok := NeedOverrides(s, rk, dom);
      if !ok {
        return;
      }
      ghost var o := overrides.value;
      assert RemovedBy(s, o, rk, n, ops[..0]) == {} by { NothingRemoved(s, rk, n); }
      for i := 0 to |ops|
        invariant ok && Core(s, rk) && Flow() && Coherent(s, rk) && KeysWithin(old(expandCache), expandCache, dom)
        invariant overrides == Some(o) && Advance(s, rk, old(overrides), old(inoverride), overrides, inoverride)
        invariant words == RemovedBy(s, o, rk, n, ops[..i])
      {
        var op := ops[i];
        assert ops[..i + 1] == ops[..i] + [op];
        RemovedOne(s, o, rk, n, ops[..i], op);
        if Applies(op, overrides.value) {
          TopAtMost(op.text, rk, rk(n));
          var t, refs;
          ok, t, refs := ExpandWithRefs(op.text, s, rk, dom);
          assert Possible(overrides, o);
          words := words + SeqSetOf(Words(t));
        }
      }
      assert ops[..|ops|] == ops;
    }

    /**
     * getVarFlag(n, "_content") after a cache miss, with expand or retparser: evaluates and caches. before is
     * the cache without the new record, which is stored under n whatever the mode of the read.
     */
    method Evaluate(n: Name, expand: bool, noweakdefault: bool, parsing: bool, ghost s: Store, ghost rk: Name -> nat, ghost dom: iset<Name>)
      returns (ok: bool, parser: Parse, ghost before: Cache)
      requires Sound(s.index) && Ranked(s, rk) && this !in Repr && Core(s, rk) && Flow() && Coherent(s, rk)
      requires Closed(s, dom) && OVERRIDES in dom && n in dom
      modifies `overrides, `overridesset, `inoverride, `expandCache
      ensures Core(s, rk) && Flow()
      ensures ok ==> CoherentWith(before, overrides, s, rk) && expandCache == before[OfContent(n) := parser]
      ensures ok ==> KeysWithin(old(expandCache), expandCache, dom)
      ensures ok ==> Advance(s, rk, old(overrides), old(inoverride), overrides, inoverride)
      ensures !ok ==> old(overrides).None? && Settle(s, rk).None?
      ensures ok ==> forall o :: Possible(overrides, o) ==> parser == ParseIn(s, o, rk, n, noweakdefault, parsing)
      decreases if overrides.None? then 1 else 0, rk(n), 5
    {
      hide Value, RawIn, Expand, Strip, RemovedBy, Settle, ParseIn, FlagParseOf, Core, Sound, Ranked, Closed, Top, Within, CoherentWith;
      parser := Parse(None, None, {});
      before := expandCache;
      var local := FindVar(n, s, rk);
      ghost var ops0 := OpsAt(s, n, Remove);
      var raw: Option<Text>;
      ok, raw := RawValue(n, noweakdefault, parsing, s, rk, dom);
      if !ok {
        return;
      }
      if raw.None? {
        forall o | Possible(overrides, o) ensures parser == ParseIn(s, o, rk, n, noweakdefault, parsing) {
          ParseInIs(s, o, rk, n, noweakdefault, parsing, raw, []);
        }
      } else {
        ok, parser := ExpandRaw(n, expand, noweakdefault, parsing, raw.value, local, s, rk, dom);
        if !ok {
          return;
        }
      }
      before := expandCache;
      expandCache := expandCache[OfContent(n) := parser];
    }

    /** The expansion and the removals, for an unexpanded value raw of n. */
    method ExpandRaw(n: Name, expand: bool, ghost noweakdefault: bool, parsing: bool, raw: Text, local: VarDict?,
                     ghost s: Store, ghost rk: Name -> nat, ghost dom: iset<Name>)
      returns (ok: bool, parser: Parse)
      requires Sound(s.index) && Ranked(s, rk) && this !in Repr && Core(s, rk) && Flow() && Coherent(s, rk)
      requires Closed(s, dom) && OVERRIDES in dom && n in dom
      requires if local == null then FlagsAt(s, n) == NO_FLAGS else local.Valid() && local.view == FlagsAt(s, n)
      requires forall o :: Possible(overrides, o) ==> Some(raw) == RawIn(s, o, n, noweakdefault, parsing)
      modifies `overrides, `overridesset, `inoverride, `expandCache
      ensures Core(s, rk) && Flow()
      ensures ok ==> Coherent(s, rk) && KeysWithin(old(expandCache), expandCache, dom)
      ensures ok ==> Advance(s, rk, old(overrides), old(inoverride), overrides, inoverride)
      ensures !ok ==> old(overrides).None? && Settle(s, rk).None?
      ensures ok ==> forall o :: Possible(overrides, o) ==> parser == ParseIn(s, o, rk, n, noweakdefault, parsing)
      decreases if overrides.None? then 1 else 0, rk(n), 4
    {
      hide Value, RawIn, Expand, Strip, RemovedBy, Settle, ParseIn, FlagParseOf, Core, Sound, Ranked, Closed, Evaluated, Top, Within;
      parser := Parse(None, None, {});
      ghost var o1 := if overrides.Some? then overrides.value else [];
      assert Possible(overrides, o1);
      RawBelow(s, o1, rk, n, noweakdefault, parsing);
      RawFrame(s, s, o1, dom, n, noweakdefault, parsing);
      TopAtMost(raw, rk, rk(n));
      var t, refs;
      ok, t, refs := ExpandWithRefs(raw, s, rk, dom);
      if !ok {
        return;
      }
      parser := Parse(Some(raw), Some(t), refs);
      var value := if expand then t else raw;
      ghost var local_ := local;
      if value != [] && local != null && Remove in local.ops && !parsing {
        var ops := local.ops[Remove].items;
        assert ops == OpsAt(s, n, Remove);
        var words;
        ok, words := RemovedWords(ops, n, s, rk, dom);
        if !ok {
          return;
        }
        parser := parser.(value := Some(Strip(t, words)));
      }
      forall o | Possible(overrides, o) ensures parser == ParseIn(s, o, rk, n, noweakdefault, parsing) {
        ParseInIs(s, o, rk, n, noweakdefault, parsing, Some(raw), t);
        assert raw == [] ==> Expand(s, o, rk, raw) == [] by { ExpandNothing(s, rk); }
      }
    }

    /** `getVarFlag(n, "_content", False, retparser=True)`: the unexpanded value, and its record. */
    method GetParsed(n: Name, ghost s: Store, ghost rk: Name -> nat, ghost dom: iset<Name>)
      returns (ok: bool, raw: Option<Text>)
      requires Sound(s.index) && Ranked(s, rk) && this !in Repr && Core(s, rk) && Flow() && Coherent(s, rk)
      requires Closed(s, dom) && OVERRIDES in dom && n in dom
      modifies `overrides, `overridesset, `inoverride, `expandCache
      ensures Core(s, rk) && Flow()
      ensures ok ==> Coherent(s, rk) && KeysWithin(old(expandCache), expandCache, dom)
      ensures ok ==> Advance(s, rk, old(overrides), old(inoverride), overrides, inoverride)
      ensures !ok ==> old(overrides).None? && Settle(s, rk).None?
      ensures ok ==> forall o :: Possible(overrides, o) ==> raw == Raw(s, o, n)
      decreases if overrides.None? then 1 else 0, rk(n), 6
    {
      hide Value, Raw, Expand, Settle, FlagParseOf, Core, Sound, Ranked, Closed;
      if OfContent(n) in expandCache {
        assert forall o :: Possible(overrides, o) ==> expandCache[OfContent(n)] == Evaluated(s, o, rk, OfContent(n));
        return true, expandCache[OfContent(n)].unexpanded;
      }
      var parser;
      ghost var before;
      ok, parser, before := Evaluate(n, false, false, false, s, rk, dom);
      if ok {
        StoredPlainly(before, overrides, s, rk, n, parser);
      }
      raw := parser.unexpanded;
    }

    /** `getVar(n)` */
    method GetVar(n: Name, ghost s: Store, ghost rk: Name -> nat, ghost dom: iset<Name>)
      returns (ok: bool, value: Option<Text>)
      requires Sound(s.index) && Ranked(s, rk) && this !in Repr && Core(s, rk) && Flow()
      requires Closed(s, dom) && OVERRIDES in dom && n in dom
      requires Coherent(s, rk) || OfContent(n) in expandCache
      modifies `overrides, `overridesset, `inoverride, `expandCache
      ensures Core(s, rk) && Flow()
      ensures OfContent(n) in old(expandCache) ==>
                ok && value == old(expandCache)[OfContent(n)].value && unchanged(`overrides) && unchanged(`inoverride) && unchanged(`expandCache)
      ensures old(Coherent(s, rk)) && ok ==> Coherent(s, rk)
      ensures old(Coherent(s, rk)) && ok ==> forall o :: Possible(overrides, o) ==> value == Value(s, o, rk, n)
      ensures ok ==> Advance(s, rk, old(overrides), old(inoverride), overrides, inoverride)
      ensures ok ==> OfContent(n) in expandCache && expandCache[OfContent(n)].value == value
      ensures ok ==> KeysWithin(old(expandCache), expandCache, dom)
      ensures !ok ==> old(overrides).None? && Settle(s, rk).None?
      decreases if overrides.None? then 1 else 0, rk(n), 6
    {
      hide Value, Raw, Expand, Settle, FlagParseOf, Core, Sound, Ranked, Closed;
      if OfContent(n) in expandCache {
        assert old(Coherent(s, rk)) ==> forall o :: Possible(overrides, o) ==> expandCache[OfContent(n)] == Evaluated(s, o, rk, OfContent(n));
        return true, expandCache[OfContent(n)].value;
      }
      var parser;
      ghost var before;
      ok, parser, before := Evaluate(n, true, false, false, s, rk, dom);
      if ok {
        StoredPlainly(before, overrides, s, rk, n, parser);
      }
      value := parser.value;
    }

    // ---- writing ----

    /** `self.overridedata[n] = l`, for a list object that is new. */
    method PutList(n: Name, l: ListObj<Entry>)
      requires Shape()
      modifies `overridedata, `index, `Repr
      ensures Shape() && Repr == old(Repr) + {l}
      ensures index == old(index)[n := l.items]
    {
      overridedata := overridedata[n := l];
      index := index[n := l.items];
      Repr := Repr + {l};
    }

    /** Appending to a list that a copy may share: the list is recreated first. */
    method AppendEntry(n: Name, e: Entry)
      requires Shape() && n in overridedata
      modifies `overridedata, `index, `Repr
      ensures Shape() && old(Repr) <= Repr && fresh(Repr - old(Repr))
      ensures index == old(index)[n := Added(old(index)[n], e)]
    {
      if e !in overridedata[n].items {
        var l := overridedata[n].Copy();
        l.Append(e);
        PutList(n, l);
      } else {
        assert index == index[n := index[n]];
      }
    }

    /** One turn of `_setvar_update_overrides`. */
    method RegisterEntry(n: Name, e: Entry)
      requires Shape()
      modifies `overridedata, `index, `Repr
      ensures Shape() && old(Repr) <= Repr && fresh(Repr - old(Repr))
      ensures index == Register(old(index), n, e)
    {
      hide Shape, Added;
      IndexedNames();
      if n !in overridedata {
        var empty := new ListObj<Entry>([]);
        PutList(n, empty);
        IndexedNames();
      }
      AppendEntry(n, e);
    }

    /** One turn of the loop in delVar: again the list is recreated first. */
    method DeregisterEntry(n: Name, e: Entry)
      requires Shape()
      modifies `overridedata, `index, `Repr
      ensures Shape() && old(Repr) <= Repr && fresh(Repr - old(Repr))
      ensures index == Deregister(old(index), n, e)
    {
      if n in overridedata {
        var l := overridedata[n].Copy();
        l.RemoveFirst(e);
        PutList(n, l);
      }
    }

    /** `_setvar_update_overrides(v)` */
    method UpdateOverrides(v: Name)
      requires Shape() && v != []
      modifies `overridedata, `index, `Repr
      ensures Shape() && old(Repr) <= Repr && fresh(Repr - old(Repr))
      ensures index == Update(old(index), v)
    {
      hide Shape, Register, Deregister;
      if |v| == 1 {
        if OverrideStart(v[0]) {
          RegisterEntry([v[0][..|v[0]| - 1]], Entry(v, v));
        }
        return;
      }
      var k := |v| - 1;
      while k > 0 && OverrideStart(v[k]) && !(k == 1 && v[0] == "" && |v| != 2)
        invariant 0 <= k < |v|
        invariant Shape() && old(Repr) <= Repr && fresh(Repr - old(Repr))
        invariant RegisterFrom(index, v, k) == Update(old(index), v)
      {
        RegisterEntry(v[..k], EntryAt(v, k));
        k := k - 1;
      }
    }

    /** `del self.overridedata[v]`, if it is there */
    method DropList(v: Name)
      requires Shape()
      modifies `overridedata, `index
      ensures Shape() && index == old(index) - {v}
    {
      overridedata := overridedata - {v};
      index := index - {v};
    }

    /** The loop of delVar over the colons of v. */
    method ForgetOverrides(v: Name)
      requires Shape() && v != []
      modifies `overridedata, `index, `Repr
      ensures Shape() && old(Repr) <= Repr && fresh(Repr - old(Repr))
      ensures index == Forget(old(index), v)
    {
      hide Shape, Register, Deregister;
      DropList(v);
      if |v| > 1 {
        var k := |v| - 1;
        while k > 0 && OverrideStart(v[k]) && !(k == 1 && v[0] == "" && |v| != 2)
          invariant 0 <= k < |v|
          invariant Shape() && old(Repr) <= Repr && fresh(Repr - old(Repr))
          invariant DeregisterFrom(index, v, k) == Forget(old(index), v)
        {
          DeregisterEntry(v[..k], EntryAt(v, k));
          k := k - 1;
        }
      }
    }

    /** `_makeShadowCopy(v)` */
    method MakeShadowCopy(v: Name)
      requires Shape()
      modifies `Repr, dict
      ensures Shape() && v in dict.vars && dict.vars[v] in dict.own && old(Repr) <= Repr && fresh(Repr - old(Repr))
      ensures old(dict.own) <= dict.own && fresh(dict.own - old(dict.own))
      ensures Contents() == SetFlags(old(Contents()), v, FlagsAt(old(Contents()), v))
    {
      dict.MakeShadowCopy(v);
      assert dict.Holds(v, dict.vars[v]);
      Repr := Repr + dict.Repr;
    }

    /** `self.dict[v][f] = t` */
    method StoreText(v: Name, f: Flag, t: Text)
      requires Shape() && v in dict.vars
      modifies `Repr, dict`Repr, dict`seen, dict.vars[v]
      ensures dict.own == old(dict.own)
      ensures Shape() && old(Repr) <= Repr && Repr <= old(Repr) + {}
      ensures Contents() == SetFlags(old(Contents()), v, FlagsAt(old(Contents()), v).(text := FlagsAt(old(Contents()), v).text[f := t]))
    {
      dict.SetText(v, f, t);
      Repr := Repr + dict.Repr;
    }

    /** `del self.dict[v][f]` */
    method DropText(v: Name, f: Flag)
      requires Shape() && v in dict.vars
      modifies `Repr, dict`Repr, dict`seen, dict.vars[v]
      ensures dict.own == old(dict.own)
      ensures Shape() && old(Repr) <= Repr && Repr <= old(Repr) + {}
      ensures Contents() == SetFlags(old(Contents()), v, FlagsAt(old(Contents()), v).(text := FlagsAt(old(Contents()), v).text - {f}))
    {
      dict.DelText(v, f);
      Repr := Repr + dict.Repr;
    }

    /** `self.dict[v][k] = l` */
    method StoreOps(v: Name, k: Keyword, l: ListObj<Op>)
      requires Shape() && v in dict.vars
      modifies `Repr, dict`Repr, dict`seen, dict.vars[v]
      ensures dict.own == old(dict.own)
      ensures Shape() && old(Repr) <= Repr && Repr <= old(Repr) + {l}
      ensures Contents() == SetFlags(old(Contents()), v, FlagsAt(old(Contents()), v).(ops := FlagsAt(old(Contents()), v).ops[k := l.items]))
    {
      dict.SetOps(v, k, l);
      Repr := Repr + dict.Repr;
    }

    /** deletes the operation lists of v */
    method DropOps(v: Name)
      requires Shape() && v in dict.vars
      modifies `Repr, dict`Repr, dict`seen, dict.vars[v]
      ensures dict.own == old(dict.own)
      ensures Shape() && old(Repr) <= Repr && Repr <= old(Repr) + {}
      ensures Contents() == SetFlags(old(Contents()), v, FlagsAt(old(Contents()), v).(ops := map[]))
    {
      dict.DropOps(v);
      Repr := Repr + dict.Repr;
    }

    /** `self.dict[v] = {}` */
    method ResetVar(v: Name)
      requires Shape()
      modifies `Repr, dict
      ensures Shape() && old(Repr) <= Repr && fresh(Repr - old(Repr))
      ensures v in dict.vars && dict.vars == old(dict.vars)[v := dict.vars[v]]
      ensures old(dict.own) <= dict.own && fresh(dict.own - old(dict.own))
      ensures Contents() == SetFlags(old(Contents()), v, NO_FLAGS)
    {
      var d := new VarDict.Empty(v);
      dict.Install(v, d);
      Repr := Repr + {d};
    }

    /** delVar, but for the cache: a new empty dictionary, and no trace of v in the index. */
    method EraseVar(v: Name)
      requires Shape() && v != []
      modifies `Repr, `overridedata, `index, dict
      ensures Shape() && old(Repr) <= Repr && fresh(Repr - old(Repr))
      ensures v in dict.vars && dict.vars == old(dict.vars)[v := dict.vars[v]]
      ensures old(dict.own) <= dict.own && fresh(dict.own - old(dict.own))
      ensures Contents() == Writes.DelVar(old(Contents()), v)
    {
      ResetVar(v);
      ForgetOverrides(v);
    }

    /** The override list in force; it only matters once it has been settled. */
    ghost function Now(): seq<string>
      reads `overrides
    {
      if overrides.Some? then overrides.value else []
    }

    /** delVar(v) as part of another operation. */
    method EraseAndClear(v: Name)
      requires Shape() && v != []
      modifies `Repr, `overridedata, `index, `expandCache, dict
      ensures Shape() && old(Repr) <= Repr && fresh(Repr - old(Repr))
      ensures v in dict.vars && dict.vars == old(dict.vars)[v := dict.vars[v]]
      ensures old(dict.own) <= dict.own && fresh(dict.own - old(dict.own))
      ensures Contents() == Writes.DelVar(old(Contents()), v)
      ensures expandCache == map[]
    {
      expandCache := map[];
      EraseVar(v);
    }

    /** `for a in active: self.delVar(a)` */
    method EraseAll(v: Name, vs: seq<Name>)
      requires Shape() && v in dict.vars && forall a :: a in vs ==> a != [] && a != v
      modifies `Repr, `overridedata, `index, `expandCache, dict
      ensures Shape() && old(Repr) <= Repr && fresh(Repr - old(Repr))
      ensures v in dict.vars && dict.vars[v] == old(dict.vars[v])
      ensures old(dict.own) <= dict.own && fresh(dict.own - old(dict.own))
      ensures Contents() == DelVars(old(Contents()), vs)
      ensures expandCache == if vs == [] then old(expandCache) else map[]
    {
      hide Shape, Writes.DelVar;
      for i := 0 to |vs|
        invariant Shape() && old(Repr) <= Repr && fresh(Repr - old(Repr))
        invariant v in dict.vars && dict.vars[v] == old(dict.vars[v])
        invariant old(dict.own) <= dict.own && fresh(dict.own - old(dict.own))
        invariant forall a :: a in vs[i..] ==> a in vs
        invariant DelVars(Contents(), vs[i..]) == DelVars(old(Contents()), vs)
        invariant expandCache == if i == 0 then old(expandCache) else map[]
      {
        assert vs[i] in vs && vs[i..][1..] == vs[i + 1..];
        EraseAndClear(vs[i]);
      }
    }

    /** The collection of `active` in setVar. */
    method CollectActive(es: seq<Entry>) returns (active: seq<Name>)
      requires overrides.Some? && Flow()
      ensures active == ActiveNames(es, overrides.value)
    {
      active := [];
      for i := 0 to |es|
        invariant active == ActiveNames(es[..i], overrides.value)
      {
        assert es[..i + 1][..i] == es[..i];
        var e := es[i];
        if Join(e.o) in overridesset || (|e.o| > 1 && forall c :: c in e.o ==> c in overridesset) {
          active := active + [e.r];
        }
      }
      assert es[..|es|] == es;
    }

    /** `active` in setVar. The override list, if it has to be settled here, is settled on the contents s. */
    method ActiveDefinitions(v: Name, ghost s: Store, ghost rk: Name -> nat, ghost dom: iset<Name>)
      returns (ok: bool, active: seq<Name>)
      requires Sound(s.index) && Ranked(s, rk) && this !in Repr && Core(s, rk) && Flow()
      requires Closed(s, dom) && OVERRIDES in dom && v in overridedata
      requires expandCache == map[]
      modifies `expandCache, `overrides, `overridesset, `inoverride
      ensures Core(s, rk) && Flow()
      ensures ok <==> old(overrides).Some? || Settle(s, rk).Some?
      ensures ok ==> overrides.Some? && Advance(s, rk, old(overrides), old(inoverride), overrides, inoverride)
      ensures ok ==> CoherentWith(expandCache, overrides, s, rk) && KeysWithin(map[], expandCache, dom)
      ensures old(overrides).Some? ==> expandCache == map[]
      ensures ok ==> v in s.index && active == ActiveNames(s.index[v], overrides.value)
      ensures ok ==> forall a :: a in active ==> a != [] && a != v
    {
      hide Ranked, Closed, Settle, Evaluated, ActiveNames;
      active := [];
      assert SoundList(v, s.index[v]);
      var es := overridedata[v].items;
      assert es == s.index[v];
      ok := NeedOverrides(s, rk, dom);
      if ok {
        active := CollectActive(es);
        ActiveNamesLonger(v, es, overrides.value);
      }
    }

    /** Deleting the active definitions of v, and the index entry of v. */
    method DropDefinitions(v: Name, active: seq<Name>)
      requires Shape() && v in dict.vars && forall a :: a in active ==> a != [] && a != v
      modifies `Repr, `overridedata, `index, `expandCache, dict
      ensures Shape() && old(Repr) <= Repr && fresh(Repr - old(Repr))
      ensures old(dict.own) <= dict.own && fresh(dict.own - old(dict.own))
      ensures v in dict.vars && dict.vars[v] == old(dict.vars[v])
      ensures expandCache == if active == [] then old(expandCache) else map[]
      ensures var s2 := DelVars(old(Contents()), active); Contents() == s2.(index := s2.index - {v})
    {
      hide Shape, DelVars;
      EraseAll(v, active);
      DropList(v);
    }

    lemma CoreParts(s: Store, rk: Name -> nat)
      ensures Core(s, rk) <==>
                Shape() && s == Contents() && rk == rank && Sound(s.index) && Ranked(s, rk) && PlainRemoves(s)
    {
    }

    /** The shadow copy in setVar, and the deletion of the operation lists unless parsing. */
    method ShadowAndDrop(v: Name, parsing: bool)
      requires Shape()
      modifies `Repr, dict, dict.own
      ensures Shape() && old(Repr) <= Repr && fresh(Repr - old(Repr)) && v in dict.vars && dict.vars[v] in dict.own
      ensures old(dict.own) <= dict.own && fresh(dict.own - old(dict.own))
      ensures Contents() == if parsing then SetFlags(old(Contents()), v, FlagsAt(old(Contents()), v)) else Writes.DropOps(old(Contents()), v)
    {
      hide Shape;
      MakeShadowCopy(v);
      if !parsing {
        DropOps(v);
      }
    }

    /** setVar up to `if not parsing:` and what follows from it. */
    method PrepareVar(v: Name, parsing: bool, ghost s: Store, ghost rk: Name -> nat, ghost dom: iset<Name>)
      returns (ok: bool)
      requires Sound(s.index) && Ranked(s, rk) && this !in Repr && Core(s, rk) && Flow() && v != []
      requires overrides.None? && !parsing && v in s.index ==> Closed(s, dom) && OVERRIDES in dom && v !in dom
      requires expandCache == map[]
      modifies `Repr, `overridedata, `index, `expandCache, `overrides, `overridesset, `inoverride, dict, dict.own
      ensures old(Repr) <= Repr && fresh(Repr - old(Repr))
      ensures old(dict.own) <= dict.own && fresh(dict.own - old(dict.own))
      ensures ok <==> old(overrides).Some? || parsing || v !in s.index || Settle(s, rk).Some?
      ensures ok ==> Shape() && Flow() && v in dict.vars && dict.vars[v] in dict.own
      ensures ok ==> Advance(s, rk, old(overrides), old(inoverride), overrides, inoverride)
      ensures ok ==> Contents() == if parsing then SetFlags(s, v, FlagsAt(s, v)) else Cleared(s, Now(), v)
      ensures ok ==> if old(overrides).None? && !parsing && v in s.index
                     then overrides.Some? && (expandCache == map[] || CacheFrom(expandCache, overrides, s, rk, v, dom))
                     else overrides == old(overrides) && inoverride == old(inoverride) && expandCache == map[]
    {
      hide Core, Shape, Sound, Ranked, Closed, PlainRemoves, Settle, Evaluated, Cleared, CoherentWith, CacheFrom;
      ok := true;
      CoreParts(s, rk);
      ShadowAndDrop(v, parsing);
      if !parsing {
        WithoutOps(s, rk, v);
        CoreParts(Writes.DropOps(s, v), rk);
        IndexedNames();
        if v in overridedata {
          ok := DropActive(v, s, rk, dom);
        }
        ClearedIs(s, Now(), v);
      }
    }

    /** The deletion of the definitions of v that are active. */
    method DropActive(v: Name, ghost s: Store, ghost rk: Name -> nat, ghost dom: iset<Name>) returns (ok: bool)
      requires Sound(s.index) && Ranked(s, rk) && this !in Repr && Flow() && v != [] && v in overridedata && v in s.index && v in dict.vars
      requires var s1 := Writes.DropOps(s, v); Sound(s1.index) && Ranked(s1, rk) && Core(s1, rk)
      requires overrides.None? ==> Closed(s, dom) && OVERRIDES in dom && v !in dom
      requires expandCache == map[]
      modifies `Repr, `overridedata, `index, `expandCache, `overrides, `overridesset, `inoverride, dict
      ensures old(Repr) <= Repr && fresh(Repr - old(Repr))
      ensures old(dict.own) <= dict.own && fresh(dict.own - old(dict.own))
      ensures ok <==> old(overrides).Some? || Settle(s, rk).Some?
      ensures ok ==> Shape() && Flow() && overrides.Some? && v in dict.vars && dict.vars[v] == old(dict.vars[v])
      ensures ok ==> Advance(s, rk, old(overrides), old(inoverride), overrides, inoverride)
      ensures ok ==> (forall a :: a in ActiveNames(s.index[v], overrides.value) ==> a != []) &&
                     var s2 := DelVars(Writes.DropOps(s, v), ActiveNames(s.index[v], overrides.value));
                     Contents() == s2.(index := s2.index - {v})
      ensures ok ==> if old(overrides).None? then expandCache == map[] || CacheFrom(expandCache, overrides, s, rk, v, dom)
                     else expandCache == map[]
    {
      hide Core, Shape, Sound, Ranked, Closed, PlainRemoves, Settle, Evaluated, CoherentWith, DelVars, ActiveNames;
      ghost var s1 := Writes.DropOps(s, v);
      ghost var dom1 := DomainFor(s, rk, v, dom);
      CoreParts(s1, rk);
      var active;
      ok, active := ActiveDefinitions(v, s1, rk, dom1);
      if ok {
        CoreParts(s1, rk);
        DropDefinitions(v, active);
      }
    }

    /** What settling the list in the middle of setVar may read; anything, if there is a list already. */
    lemma DomainFor(s: Store, rk: Name -> nat, v: Name, dom: iset<Name>) returns (dom1: iset<Name>)
      requires Sound(s.index) && Ranked(s, rk)
      requires overrides.None? ==> Closed(s, dom) && OVERRIDES in dom && v !in dom
      ensures Closed(Writes.DropOps(s, v), dom1) && OVERRIDES in dom1
      ensures overrides.None? ==> dom1 == dom && Sound(Writes.DropOps(s, v).index) && Ranked(Writes.DropOps(s, v), rk)
                                  && Settle(Writes.DropOps(s, v), rk) == Settle(s, rk)
    {
      if overrides.None? {
        dom1 := dom;
        WithoutInput(s, rk, v, dom);
      } else {
        dom1 := iset m: Name | |m| >= 0;
      }
    }

    lemma IndexedNames()
      requires Shape()
      ensures forall n :: n in overridedata <==> n in index
    {
    }

    /** The end of setVar: a qualified name is registered, then the value is stored. */
    method StoreVar(v: Name, t: Text)
      requires Shape() && v != [] && v in dict.vars
      modifies `Repr, `overridedata, `index, dict`Repr, dict`seen, dict.vars[v]
      ensures Shape() && old(Repr) <= Repr && fresh(Repr - old(Repr)) && dict.own == old(dict.own)
      ensures Contents() == Stored(old(Contents()), v, t)
    {
      hide Shape, Update;
      if |v| > 1 {
        UpdateOverrides(v);
      }
      StoreText(v, Content, t);
    }

    /** The keyword branch of setVar: the list of operations is copied, extended and stored. */
    method AddOperation(base: Name, k: Keyword, op: Op)
      requires Shape() && base != []
      modifies `Repr, `overridedata, `index, dict, dict.own
      ensures Shape() && old(Repr) <= Repr && fresh(Repr - old(Repr))
      ensures old(dict.own) <= dict.own && fresh(dict.own - old(dict.own))
      ensures Contents() == AddOp(old(Contents()), base, k, op)
    {
      hide Shape, Update;
      var l := ExtendedList(base, k, op);
      MakeShadowCopy(base);
      StoreOps(base, k, l);
      UpdateOverrides(base);
    }

    /** `l = self.getVarFlag(base, keyword, False) or []; l.append(...)`: the list is copied when it is read. */
    method ExtendedList(base: Name, k: Keyword, op: Op) returns (l: ListObj<Op>)
      requires Shape()
      ensures fresh(l) && l.items == OpsAt(Contents(), base, k) + [op]
    {
      var local := dict.Find(base);
      if local != null && k in local.ops {
        l := local.ops[k].Copy();
      } else {
        l := new ListObj<Op>([]);
      }
      l.Append(op);
    }

    // ---- the datastore as its callers see it ----

    /**
     * What holds between calls: the objects hold together, references are acyclic, and the cache is coherent with the
     * override list in force.
     */
    ghost predicate Sane()
      reads this, dict, Repr
    {
      && this !in Repr && Core(Contents(), rank) && Flow() && !inoverride
      && Coherent(Contents(), rank)
    }

    /** The override list that reads go by: the one in force, or else the one that need_overrides settles on. */
    ghost function InForce(): Option<seq<string>>
      requires Sane()
      reads this, dict, Repr
    {
      if overrides.Some? then overrides else Settle(Contents(), rank)
    }

    /** Besides, a list in force is the one that need_overrides would settle on now. */
    ghost predicate Valid()
      reads this, dict, Repr
    {
      Sane() && InForce() == Settle(Contents(), rank)
    }

    /** The same list, [] if there is none. */
    ghost function OverrideList(): seq<string>
      requires Sane()
      reads this, dict, Repr
    {
      var o := InForce();
      if o.Some? then o.value else []
    }

    /** A plain setVar on a variable with other definitions needs the override list, to delete the active ones. */
    ghost predicate NeedsList(w: Write)
      requires w.v != []
      reads this
    {
      w.DoSetVar? && KeywordAt(w.v, 1).None? && !w.parsing && w.v in index && overrides.None?
    }

    /** When a write is covered. Only if it has to settle the list itself, OVERRIDES must not reach its variable. */
    ghost predicate MayWrite(w: Write, rk: Name -> nat)
      requires Sane()
      reads this, dict, Repr
    {
      && Fits(w) && Ranked(Apply(Contents(), OverrideList(), w), rk)
      && (NeedsList(w) ==> Unread(Contents(), w.v))
    }

    /** The contents that a write is to leave. */
    ghost function AfterWrite(w: Write): Store
      requires Sane() && w.v != []
      reads this, dict, Repr
    {
      Apply(Contents(), OverrideList(), w)
    }

    /** OVERRIDES settles on them. */
    ghost predicate SettlesAfter(w: Write, rk: Name -> nat)
      requires Sane() && MayWrite(w, rk)
      reads this, dict, Repr
    {
      ApplySoundIff(Contents(), OverrideList(), w);
      Settle(AfterWrite(w), rk).Some?
    }

    /** The list is right, and a write to v cannot change what OVERRIDES is. */
    ghost predicate KeepsList(v: Name)
      requires Sane()
      reads this, dict, Repr
    {
      Valid() && Unread(Contents(), v)
    }

    /** A list that was in force still is, right or not. */
    ghost predicate ListKept(was: Option<seq<string>>, vars: set<Name>)
      requires Sane()
      reads this, dict, Repr
    {
      overridevars == vars && overrides == was && (Valid() <==> was.None? || was == Settle(Contents(), rank))
    }

    /** The list is dropped, and what t refers to is recorded as read by OVERRIDES. */
    ghost predicate ListDropped(vars: set<Name>, t: Text)
      requires Sane()
      reads this, dict, Repr
    {
      && Valid() && overrides == None && expandCache == map[] && vars + Refs(t) <= overridevars
      && forall x :: x in overridevars && x !in vars && x !in Refs(t) ==> SomewhereUnset(Contents(), rank, x)
    }

    lemma ValidParts()
      ensures Valid() <==>
                && this !in Repr && Core(Contents(), rank) && Flow() && !inoverride
                && CoherentWith(expandCache, overrides, Contents(), rank)
                && (overrides.Some? ==> overrides == Settle(Contents(), rank))
    {
    }

    lemma SaneParts()
      ensures Sane() <==>
                && this !in Repr && Core(Contents(), rank) && Flow() && !inoverride
                && CoherentWith(expandCache, overrides, Contents(), rank)
    {
    }

    /** A new datastore has no override list and no cache. */
    lemma Begins(s: Store, rk: Name -> nat)
      requires this !in Repr && Shape() && Sound(s.index) && Ranked(s, rk) && PlainRemoves(s) && s == Contents() && rk == rank
      requires overrides == None && !inoverride && expandCache == map[]
      ensures Valid()
    {
      hide Shape, Sound, Ranked, PlainRemoves, Settle;
    }

    /** Where a write ends that leaves s' as the contents. */
    lemma Ends(s': Store, rk: Name -> nat)
      requires this !in Repr && Shape() && Flow() && !inoverride && s' == Contents() && rk == rank
      requires Sound(s'.index) && Ranked(s', rk) && PlainRemoves(s') && CoherentWith(expandCache, overrides, s', rk)
      ensures Sane() && (Valid() <==> overrides.None? || overrides == Settle(s', rk))
    {
      hide Shape, Flow, Sound, Ranked, PlainRemoves, CoherentWith, Settle;
    }

    /**
     * `setVar(v, t)`, with or without parsing=True. If v is known to be read by OVERRIDES, the override list is
     * dropped; otherwise a list in force stays.
     */
    method SetVar(v: Name, t: Text, parsing: bool, ghost rk: Name -> nat) returns (ok: bool)
      requires Sane() && MayWrite(DoSetVar(v, t, parsing), rk)
      modifies this, dict, dict.own
      ensures old(Repr) <= Repr && fresh(Repr - old(Repr)) && fresh(dict.own - old(dict.own))
      ensures ok ==> Sane() && rank == rk
      ensures ok ==> Contents() == old(AfterWrite(DoSetVar(v, t, parsing)))
      ensures var w := DoSetVar(v, t, parsing);
              ok && Aim(w) !in old(overridevars) ==> ListKept(if old(NeedsList(w)) then old(InForce()) else old(overrides), old(overridevars))
      ensures ok && !old(NeedsList(DoSetVar(v, t, parsing))) ==> expandCache == map[]
      ensures ok && Aim(DoSetVar(v, t, parsing)) in old(overridevars) ==> ListDropped(old(overridevars), t)
      ensures ok && old(KeepsList(Aim(DoSetVar(v, t, parsing)))) ==> Valid()
      ensures old(NeedsList(DoSetVar(v, t, parsing))) ==> (ok <==> old(InForce()).Some?)
      ensures !ok && !old(NeedsList(DoSetVar(v, t, parsing))) ==>
                Aim(DoSetVar(v, t, parsing)) in old(overridevars) && old(overrides).None? && !old(SettlesAfter(DoSetVar(v, t, parsing), rk))
    {
      hide Core, Shape, Flow, Sound, Ranked, Closed, PlainRemoves, CoherentWith, Settle, Evaluated, Apply, CacheFrom, Unread, Refs, SomewhereUnset;
      ghost var s, rk0, o, w := Contents(), rank, OverrideList(), DoSetVar(v, t, parsing);
      SaneParts();
      CoreParts(s, rk0);
      UnreadKeeps(s, o, w, rk0, rk);
      ok := StoreAny(v, t, parsing, s, o, rk0, rk);
      if ok {
        ok := Finish(Target(v) in overridevars, t, rk);
      }
    }

    /** The end of a write: if its variable is known to be read by OVERRIDES, what t refers to is recorded. */
    method Finish(read: bool, t: Text, ghost rk: Name -> nat) returns (ok: bool)
      requires this !in Repr && Shape() && Flow() && !inoverride && Sound(Contents().index) && Ranked(Contents(), rk)
      requires PlainRemoves(Contents()) && CoherentWith(expandCache, overrides, Contents(), rk)
      modifies `rank, `overrides, `overridesset, `inoverride, `expandCache, `overridevars
      ensures ok ==> Sane() && rank == rk
      ensures ok && read ==> ListDropped(old(overridevars), t)
      ensures !read ==> ok && ListKept(old(overrides), old(overridevars)) && expandCache == old(expandCache)
      ensures !ok ==> read && old(overrides).None? && Settle(old(Contents()), rk).None?
    {
      hide Core, Shape, Flow, Sound, Ranked, PlainRemoves, CoherentWith, Settle, Evaluated, Refs, SomewhereUnset, Sane, Valid;
      ghost var s := Contents();
      rank := rk;
      ok := true;
      CoreParts(s, rk);
      if read {
        ok := UpdateOverrideVars(t, s, rk);
        if !ok {
          return;
        }
        CoreParts(s, rk);
        EmptyCoherent(overrides, s, rk);
      }
      Ends(s, rk);
    }

    /** setVar up to `_setvar_update_overridevars`. */
    method StoreAny(v: Name, t: Text, parsing: bool, ghost s: Store, ghost o: seq<string>, ghost rk: Name -> nat, ghost rk': Name -> nat)
      returns (ok: bool)
      requires Sound(s.index) && Ranked(s, rk) && PlainRemoves(s) && this !in Repr && Core(s, rk) && Flow() && !inoverride
      requires Fits(DoSetVar(v, t, parsing)) && Ranked(Apply(s, o, DoSetVar(v, t, parsing)), rk')
      requires o == if overrides.Some? then overrides.value else if Settle(s, rk).Some? then Settle(s, rk).value else []
      requires NeedsList(DoSetVar(v, t, parsing)) ==> Unread(s, v)
      modifies `Repr, `overridedata, `index, `expandCache, `overrides, `overridesset, `inoverride, dict, dict.own
      ensures old(Repr) <= Repr && fresh(Repr - old(Repr)) && fresh(dict.own - old(dict.own))
      ensures ok <==> !old(NeedsList(DoSetVar(v, t, parsing))) || Settle(s, rk).Some?
      ensures ok ==> Shape() && Flow() && !inoverride && Contents() == Apply(s, o, DoSetVar(v, t, parsing)) && Sound(Contents().index)
      ensures ok ==> if old(NeedsList(DoSetVar(v, t, parsing)))
                     then overrides == Settle(s, rk)
                     else overrides == old(overrides) && expandCache == map[]
      ensures ok ==> CoherentWith(expandCache, overrides, Contents(), rk')
    {
      hide Core, Shape, Flow, Sound, Ranked, Closed, PlainRemoves, CoherentWith, Settle, Evaluated, Apply, CacheFrom, Unread;
      ApplySoundIff(s, o, DoSetVar(v, t, parsing));
      expandCache := map[];
      ok := true;
      var k := KeywordAt(v, 1);
      if k.Some? {
        CoreParts(s, rk);
        StoreOperation(v, t, parsing, k.value, s, o);
        EmptyCoherent(overrides, Contents(), rk');
      } else {
        ok := SetPlainVar(v, t, parsing, s, o, rk, rk');
      }
    }

    /** setVar on a name with the operation keyword at k. */
    method StoreOperation(v: Name, t: Text, parsing: bool, k: nat, ghost s: Store, ghost o: seq<string>)
      requires Shape() && s == Contents() && Sound(s.index) && v != [] && KeywordAt(v, 1) == Some(k)
      modifies `Repr, `overridedata, `index, dict, dict.own
      ensures Shape() && old(Repr) <= Repr && fresh(Repr - old(Repr))
      ensures old(dict.own) <= dict.own && fresh(dict.own - old(dict.own))
      ensures Contents() == Apply(s, o, DoSetVar(v, t, parsing))
    {
      hide Shape, Sound, Apply;
      ApplyIs(s, o, v, t, parsing);
      AddOperation(v[..k], KeywordOf(v[k]).value, Op(t, v[k + 1..]));
    }

    /** setVar on a name without an operation keyword. */
    method SetPlainVar(v: Name, t: Text, parsing: bool, ghost s: Store, ghost o: seq<string>, ghost rk: Name -> nat, ghost rk': Name -> nat)
      returns (ok: bool)
      requires Sound(s.index) && Ranked(s, rk) && PlainRemoves(s) && this !in Repr && Core(s, rk) && Flow() && !inoverride
      requires v != [] && KeywordAt(v, 1).None? && expandCache == map[] && Ranked(Apply(s, o, DoSetVar(v, t, parsing)), rk')
      requires o == if overrides.Some? then overrides.value else if Settle(s, rk).Some? then Settle(s, rk).value else []
      requires NeedsList(DoSetVar(v, t, parsing)) ==> Unread(s, v)
      modifies `Repr, `overridedata, `index, `expandCache, `overrides, `overridesset, `inoverride, dict, dict.own
      ensures old(Repr) <= Repr && fresh(Repr - old(Repr)) && fresh(dict.own - old(dict.own))
      ensures ok <==> !old(NeedsList(DoSetVar(v, t, parsing))) || Settle(s, rk).Some?
      ensures ok ==> Shape() && Flow() && !inoverride
      ensures ok ==> if old(NeedsList(DoSetVar(v, t, parsing))) then overrides == Settle(s, rk)
                     else overrides == old(overrides) && expandCache == map[]
      ensures ok ==> Contents() == Apply(s, o, DoSetVar(v, t, parsing)) && Sound(Contents().index)
                     && CoherentWith(expandCache, overrides, Contents(), rk')
    {
      hide Core, Shape, Flow, Sound, Ranked, Closed, PlainRemoves, CoherentWith, Settle, Evaluated, Apply, CacheFrom, Stored, Cleared;
      CoreParts(s, rk);
      ghost var dom: iset<Name> :| NeedsList(DoSetVar(v, t, parsing)) ==> Closed(s, dom) && OVERRIDES in dom && dom <= Apart(v);
      assert v !in Apart(v);
      ghost var needed := NeedsList(DoSetVar(v, t, parsing));
      ok := PrepareVar(v, parsing, s, rk, dom);
      if !ok {
        return;
      }
      StoreVar(v, t);
      PlainIs(s, Now(), o, v, t, parsing);
      ApplyIs(s, o, v, t, parsing);
      ApplySoundIff(s, o, DoSetVar(v, t, parsing));
      if needed {
        CacheIs(expandCache, overrides, s, o, v, t, parsing, rk, rk', dom);
      } else {
        EmptyCoherent(overrides, Contents(), rk');
      }
    }

    // ---- writing what OVERRIDES reads ----

    /**
     * `_setvar_update_overridevars`: the variables that the new value refers to are recorded as read by OVERRIDES,
     * and so are those that their values refer to, but values are expanded by then: what a set variable
     * refers to is not seen. The override list and the cache are dropped.
     */
    method UpdateOverrideVars(t: Text, ghost s: Store, ghost rk: Name -> nat) returns (ok: bool)
      requires Sound(s.index) && Ranked(s, rk) && this !in Repr && Core(s, rk) && Flow() && !inoverride && Coherent(s, rk)
      modifies `overrides, `overridesset, `inoverride, `expandCache, `overridevars
      ensures Core(s, rk) && Flow()
      ensures !ok ==> old(overrides).None? && Settle(s, rk).None?
      ensures ok ==> overrides == None && expandCache == map[] && !inoverride
      ensures ok ==> old(overridevars) + Refs(t) <= overridevars
      ensures ok ==> forall x :: x in overridevars && x !in old(overridevars) && x !in Refs(t) ==> SomewhereUnset(s, rk, x)
    {
      hide Value, Expand, Settle, ParseOf, FlagParseOf, Evaluated, Core, Sound, Ranked, Refs;
      ghost var everything := iset m: Name | |m| >= 0;
      assert Closed(s, everything) && OVERRIDES in everything && forall text :: Within(text, everything);
      var out, refs;
      ok, out, refs := ExpandWithRefs(t, s, rk, everything);
      if !ok {
        return;
      }
      RefsUnset(s, rk, overrides, t, refs);
      var new_ := refs;
      ghost var stage := 0;
      while !(new_ <= overridevars)
        invariant ok && Core(s, rk) && Flow() && Coherent(s, rk) && !inoverride && 0 <= stage <= 2
        invariant old(overrides).Some? ==> overrides == old(overrides)
        invariant old(overridevars) <= overridevars && Refs(t) <= overridevars + new_
        invariant stage == 0 ==> new_ == refs && overridevars == old(overridevars)
        invariant stage > 0 ==> AllUnset(s, rk, overrides, new_)
        invariant stage == 2 ==> new_ == {}
        invariant forall x :: x in overridevars + new_ && x !in old(overridevars) && x !in Refs(t) ==> SomewhereUnset(s, rk, x)
        decreases 2 - stage
      {
        overridevars := overridevars + new_;
        ok, new_ := ReferredTo(new_, stage > 0, s, rk, everything);
        if !ok {
          return;
        }
        UnsetSomewhere(s, rk, overrides, new_);
        stage := stage + 1;
      }
      overrides, overridesset := None, {};
      expandCache := map[];
    }

    /** One turn of its loop: what the values of some variables refer to. */
    method ReferredTo(names: set<Name>, ghost unset: bool, ghost s: Store, ghost rk: Name -> nat, ghost dom: iset<Name>)
      returns (ok: bool, nextnew: set<Name>)
      requires Sound(s.index) && Ranked(s, rk) && this !in Repr && Core(s, rk) && Flow() && !inoverride && Coherent(s, rk)
      requires Closed(s, dom) && OVERRIDES in dom && (forall n :: n in dom) && forall text :: Within(text, dom)
      requires unset ==> AllUnset(s, rk, overrides, names)
      modifies `overrides, `overridesset, `inoverride, `expandCache
      ensures Core(s, rk) && Flow()
      ensures !ok ==> old(overrides).None? && Settle(s, rk).None?
      ensures ok ==> Coherent(s, rk) && !inoverride && (old(overrides).Some? ==> overrides == old(overrides))
      ensures ok ==> AllUnset(s, rk, overrides, nextnew)
      ensures ok && unset ==> nextnew == {}
    {
      hide Value, Expand, Settle, ParseOf, FlagParseOf, Evaluated, Core, Sound, Ranked, Refs, Closed, Within;
      ok, nextnew := true, {};
      var todo := names;
      while todo != {}
        invariant ok && todo <= names && Core(s, rk) && Flow() && Coherent(s, rk) && !inoverride
        invariant old(overrides).Some? ==> overrides == old(overrides)
        invariant AllUnset(s, rk, overrides, nextnew)
        invariant unset ==> AllUnset(s, rk, overrides, names) && nextnew == {}
      {
        var i :| i in todo;
        ghost var was := overrides;
        var v;
        ok, v := GetVar(i, s, rk, dom);
        if !ok {
          return;
        }
        StillUnset(s, rk, was, overrides, names, nextnew);
        UnsetIsNone(s, rk, overrides, names, i, v);
        if v.Some? {
          ghost var was' := overrides;
          var out, refs;
          ok, out, refs := ExpandWithRefs(v.value, s, rk, dom);
          if !ok {
            return;
          }
          StillUnset(s, rk, was', overrides, names, nextnew);
          ValueRefsUnset(s, rk, overrides, i, v.value, refs);
          nextnew := nextnew + refs;
        }
        todo := todo - {i};
      }
    }

    /** `delVar(v)`: a list in force stays, whatever v is. */
    method DelVar(v: Name, ghost rk: Name -> nat)
      requires Sane() && MayWrite(DoDelVar(v), rk)
      modifies this, dict, dict.own
      ensures old(Repr) <= Repr && fresh(Repr - old(Repr)) && fresh(dict.own - old(dict.own))
      ensures Sane() && rank == rk && expandCache == map[]
      ensures Contents() == old(AfterWrite(DoDelVar(v)))
      ensures ListKept(old(overrides), old(overridevars))
      ensures old(KeepsList(v)) ==> Valid()
    {
      hide Core, Shape, Flow, Sound, Ranked, Closed, PlainRemoves, CoherentWith, Settle, Evaluated, Apply, Unread;
      ghost var s, o, w := Contents(), OverrideList(), DoDelVar(v);
      SaneParts();
      CoreParts(s, rank);
      UnreadKeeps(s, o, w, rank, rk);
      EraseAndClear(v);
      assert Contents() == Apply(s, o, w) by { DelIs(s, o, v); }
      rank := rk;
      EmptyCoherent(overrides, Contents(), rk);
      Ends(Contents(), rk);
    }

    /** `setVarFlag(v, f, t)`: only a weak default of a variable that OVERRIDES is known to read drops the list. */
    method SetVarFlag(v: Name, f: Flag, t: Text, ghost rk: Name -> nat) returns (ok: bool)
      requires Sane() && MayWrite(DoSetFlag(v, f, t), rk)
      modifies this, dict, dict.own
      ensures old(Repr) <= Repr && fresh(Repr - old(Repr)) && fresh(dict.own - old(dict.own))
      ensures ok ==> Sane() && rank == rk && expandCache == map[]
      ensures ok ==> Contents() == old(AfterWrite(DoSetFlag(v, f, t)))
      ensures ok && !(f == DefaultVal && v in old(overridevars)) ==> ListKept(old(overrides), old(overridevars))
      ensures ok && f == DefaultVal && v in old(overridevars) ==> ListDropped(old(overridevars), t)
      ensures ok && old(KeepsList(v)) ==> Valid()
      ensures !ok ==> f == DefaultVal && v in old(overridevars) && old(overrides).None?
                      && !old(SettlesAfter(DoSetFlag(v, f, t), rk))
    {
      hide Core, Shape, Flow, Sound, Ranked, Closed, PlainRemoves, CoherentWith, Settle, Evaluated, Apply, Unread, Refs, SomewhereUnset;
      ghost var s, o, w := Contents(), OverrideList(), DoSetFlag(v, f, t);
      SaneParts();
      CoreParts(s, rank);
      UnreadKeeps(s, o, w, rank, rk);
      expandCache := map[];
      PutFlag(v, f, t);
      assert Contents() == Apply(s, o, w) by { SetFlagIs(s, o, v, f, t); }
      EmptyCoherent(overrides, Contents(), rk);
      ok := Finish(f == DefaultVal && v in overridevars, t, rk);
    }

    /** `delVarFlag(v, f)`: a list in force stays. */
    method DelVarFlag(v: Name, f: Flag, ghost rk: Name -> nat)
      requires Sane() && MayWrite(DoDelFlag(v, f), rk)
      modifies this, dict, dict.own
      ensures old(Repr) <= Repr && fresh(Repr - old(Repr)) && fresh(dict.own - old(dict.own))
      ensures Sane() && rank == rk && expandCache == map[]
      ensures Contents() == old(AfterWrite(DoDelFlag(v, f)))
      ensures ListKept(old(overrides), old(overridevars))
      ensures old(KeepsList(v)) ==> Valid()
    {
      hide Core, Shape, Flow, Sound, Ranked, Closed, PlainRemoves, CoherentWith, Settle, Evaluated, Apply, Unread;
      ghost var s, o, w := Contents(), OverrideList(), DoDelFlag(v, f);
      SaneParts();
      CoreParts(s, rank);
      UnreadKeeps(s, o, w, rank, rk);
      expandCache := map[];
      TakeFlag(v, f);
      assert Contents() == Apply(s, o, w) by { DelFlagIs(s, o, v, f); }
      rank := rk;
      EmptyCoherent(overrides, Contents(), rk);
      Ends(Contents(), rk);
    }

    /** `appendVar(v, t)` */
    method AppendVar(v: Name, t: Text, ghost rk: Name -> nat) returns (ok: bool)
      requires Sane() && v != [] && MayWrite(DoAppend(v, t), rk)
      modifies this, dict, dict.own
      ensures old(Repr) <= Repr && fresh(Repr - old(Repr)) && fresh(dict.own - old(dict.own))
      ensures ok ==> Sane() && rank == rk && expandCache == map[]
      ensures ok ==> Contents() == old(AfterWrite(DoAppend(v, t)))
      ensures ok && Aim(DoAppend(v, t)) !in old(overridevars) ==> ListKept(old(overrides), old(overridevars))
      ensures ok && Aim(DoAppend(v, t)) in old(overridevars) ==> ListDropped(old(overridevars), t)
      ensures ok && old(KeepsList(Aim(DoAppend(v, t)))) ==> Valid()
      ensures !ok ==> Aim(DoAppend(v, t)) in old(overridevars) && old(overrides).None?
                      && !old(SettlesAfter(DoAppend(v, t), rk))
    {
      hide Core, Flow, Settle, Apply, Sane, ListKept, ListDropped, Unread;
      ok := SetVar(v + ["append"], t, true, rk);
    }

    /** `prependVar(v, t)` */
    method PrependVar(v: Name, t: Text, ghost rk: Name -> nat) returns (ok: bool)
      requires Sane() && v != [] && MayWrite(DoPrepend(v, t), rk)
      modifies this, dict, dict.own
      ensures old(Repr) <= Repr && fresh(Repr - old(Repr)) && fresh(dict.own - old(dict.own))
      ensures ok ==> Sane() && rank == rk && expandCache == map[]
      ensures ok ==> Contents() == old(AfterWrite(DoPrepend(v, t)))
      ensures ok && Aim(DoPrepend(v, t)) !in old(overridevars) ==> ListKept(old(overrides), old(overridevars))
      ensures ok && Aim(DoPrepend(v, t)) in old(overridevars) ==> ListDropped(old(overridevars), t)
      ensures ok && old(KeepsList(Aim(DoPrepend(v, t)))) ==> Valid()
      ensures !ok ==> Aim(DoPrepend(v, t)) in old(overridevars) && old(overrides).None?
                      && !old(SettlesAfter(DoPrepend(v, t), rk))
    {
      hide Core, Flow, Settle, Apply, Sane, ListKept, ListDropped, Unread;
      ok := SetVar(v + ["prepend"], t, true, rk);
    }

    /** Does `_findVar` find a dictionary that is not empty? */
    method HasFlags(v: Name) returns (r: bool)
      requires Shape()
      ensures r <==> FlagsAt(Contents(), v) != NO_FLAGS
    {
      var local := dict.Find(v);
      r := local != null && !local.IsEmpty();
    }

    lemma FlagKnown(v: Name, f: Flag)
      requires Shape() && v in dict.vars
      ensures f in dict.vars[v].text <==> f in FlagsAt(Contents(), v).text
    {
      assert dict.Holds(v, dict.vars[v]);
    }

    method PutFlag(v: Name, f: Flag, t: Text)
      requires Shape() && v != []
      modifies `Repr, `overridedata, `index, dict, dict.own
      ensures Shape() && old(Repr) <= Repr && fresh(Repr - old(Repr))
      ensures old(dict.own) <= dict.own && fresh(dict.own - old(dict.own))
      ensures var s := old(Contents());
              var s1 := SetFlags(s, v, FlagsAt(s, v));
              var s2 := SetFlags(s1, v, FlagsAt(s1, v).(text := FlagsAt(s1, v).text[f := t]));
              Contents() == if f == DefaultVal && |v| > 1 then s2.(index := Update(s2.index, v)) else s2
    {
      hide Shape, Update;
      MakeShadowCopy(v);
      StoreText(v, f, t);
      if f == DefaultVal && |v| > 1 {
        UpdateOverrides(v);
      }
    }

    method TakeFlag(v: Name, f: Flag)
      requires Shape() && v != []
      modifies `Repr, dict, dict.own
      ensures Shape() && old(Repr) <= Repr && fresh(Repr - old(Repr))
      ensures old(dict.own) <= dict.own && fresh(dict.own - old(dict.own))
      ensures var s := old(Contents());
              var s1 := SetFlags(s, v, FlagsAt(s, v));
              Contents() ==
                if FlagsAt(s, v) == NO_FLAGS then s
                else if f in FlagsAt(s1, v).text then SetFlags(s1, v, FlagsAt(s1, v).(text := FlagsAt(s1, v).text - {f}))
                else s1
    {
      hide Shape;
      var present := HasFlags(v);
      if present {
        MakeShadowCopy(v);
        FlagKnown(v, f);
        if f in dict.vars[v].text {
          DropText(v, f);
        }
      }
    }

    // ---- reads as callers make them ----

    /** need_overrides by itself, as going through the keys of a datastore calls it. */
    method SettleList() returns (ok: bool)
      requires Sane()
      modifies `overrides, `overridesset, `inoverride, `expandCache
      ensures ok <==> old(InForce()).Some?
      ensures ok ==> Sane() && Contents() == old(Contents()) && rank == old(rank)
      ensures ok ==> overrides == old(InForce()) && (Valid() <==> old(Valid()))
    {
      hide Core, Shape, Sound, Ranked, PlainRemoves, Settle, Evaluated, Apply;
      ghost var everything := iset m: Name | |m| >= 0;
      ghost var s, rk := Contents(), rank;
      SaneParts();
      CoreParts(s, rk);
      ok := NeedOverrides(s, rk, everything);
      if ok {
        SaneParts();
        CoreParts(s, rk);
      }
    }

    /** `getVar(n)`: the value that evaluation without a cache gives under the override list in force, right or not. */
    method ReadVar(n: Name) returns (ok: bool, value: Option<Text>)
      requires Sane()
      modifies `overrides, `overridesset, `inoverride, `expandCache
      ensures ok ==> Sane() && Contents() == old(Contents()) && rank == old(rank)
      ensures ok ==> InForce() == old(InForce()) && (Valid() <==> old(Valid()))
      ensures !ok ==> old(InForce()).None?
      ensures ok ==> forall o :: Possible(InForce(), o) ==> value == Value(Contents(), o, rank, n)
    {
      hide Core, Shape, Sound, Ranked, PlainRemoves, Settle, Evaluated, Apply;
      ghost var everything := iset m: Name | |m| >= 0;
      ghost var s, rk := Contents(), rank;
      SaneParts();
      CoreParts(s, rk);
      ok, value := GetVar(n, s, rk, everything);
      if ok {
        SaneParts();
      }
    }

    /**
     * `getVar(n, False, noweakdefault, parsing)`. What is left to remove from a value is looked up, which settles
     * the list, although nothing is removed from an unexpanded value.
     */
    method ReadUnexpanded(n: Name, noweakdefault: bool, parsing: bool) returns (ok: bool, value: Option<Text>)
      requires Sane()
      modifies `overrides, `overridesset, `inoverride, `expandCache
      ensures ok ==> Sane() && Contents() == old(Contents()) && rank == old(rank)
      ensures ok ==> InForce() == old(InForce()) && (Valid() <==> old(Valid()))
      ensures !ok ==> old(InForce()).None? && !parsing
      ensures ok ==> forall o :: Possible(InForce(), o) ==> value == RawIn(Contents(), o, n, noweakdefault, parsing)
      ensures parsing ==> overrides == old(overrides) && expandCache == old(expandCache)
      ensures ok && !parsing && value.Some? && value.value != [] && Remove in FlagsAt(Contents(), n).ops ==> overrides.Some?
    {
      hide Core, Shape, Sound, Ranked, PlainRemoves, Settle, Evaluated, Apply, RawIn, FlagsAt;
      ghost var everything := iset m: Name | |m| >= 0;
      ghost var s, rk := Contents(), rank;
      SaneParts();
      CoreParts(s, rk);
      ok, value := RawValue(n, noweakdefault, parsing, s, rk, everything);
      if ok {
        CoreParts(s, rk);
        var local := FindVar(n, s, rk);
        ghost var fl := FlagsAt(s, n);
        KnownOps(local, fl);
        if value.Some? && value.value != [] && local != null && Remove in local.ops && !parsing {
          ok := NeedOverrides(s, rk, everything);
        }
      }
      if ok {
        SaneParts();
      }
    }

    lemma KnownOps(local: VarDict?, fl: Flags)
      requires if local == null then fl == NO_FLAGS else local.Valid() && local.view == fl
      ensures forall k :: k in fl.ops <==> local != null && k in local.ops
    {
    }

    /**
     * `getVar(n, True, noweakdefault, parsing)`. If n is in the cache, the mode is ignored. If not, the value of
     * that mode is stored where plain reads look, which keeps the cache coherent exactly if the mode does
     * not matter to n.
     */
    method ReadAs(n: Name, noweakdefault: bool, parsing: bool) returns (ok: bool, value: Option<Text>)
      requires Sane()
      modifies `overrides, `overridesset, `inoverride, `expandCache
      ensures !ok ==> old(InForce()).None?
      ensures ok ==> Contents() == old(Contents()) && rank == old(rank) && Sound(Contents().index) && Ranked(Contents(), rank)
      ensures ok && OfContent(n) in old(expandCache) ==>
        Sane() && overrides == old(overrides) && forall o :: Possible(InForce(), o) ==> value == Value(Contents(), o, rank, n)
      ensures ok && OfContent(n) !in old(expandCache) ==>
        && (old(overrides).Some? ==> overrides == old(overrides)) && (overrides.Some? ==> overrides == old(InForce()))
        && OfContent(n) in expandCache && expandCache[OfContent(n)].value == value
        && (forall o :: Possible(overrides, o) ==> expandCache[OfContent(n)] == ParseIn(Contents(), o, rank, n, noweakdefault, parsing))
        && (Sane() <==> forall o :: Possible(overrides, o) ==> !ModeMatters(Contents(), o, rank, n, noweakdefault, parsing))
    {
      hide Core, Shape, Sound, Ranked, PlainRemoves, Settle, Evaluated, Apply, ParseIn, ParseOf, ModeMatters, Value, CoherentWith;
      ghost var everything := iset m: Name | |m| >= 0;
      ghost var s, rk := Contents(), rank;
      SaneParts();
      CoreParts(s, rk);
      if OfContent(n) in expandCache {
        ok, value := GetVar(n, s, rk, everything);
        SaneParts();
        return;
      }
      var parser;
      ghost var before;
      ok, parser, before := Evaluate(n, true, noweakdefault, parsing, s, rk, everything);
      value := parser.value;
      if ok {
        SaneParts();
        CoreParts(s, rk);
        StoredCoherentIff(before, overrides, s, rk, n, parser);
        forall o | Possible(overrides, o)
          ensures parser == ParseOf(s, o, rk, n) <==> !ModeMatters(s, o, rk, n, noweakdefault, parsing)
        {
          RecordSameIff(s, o, rk, n, noweakdefault, parsing);
        }
      }
    }

    /** `getVarFlag(n, f)` for a flag other than `_content` */
    method ReadFlag(n: Name, f: Flag) returns (ok: bool, value: Option<Text>)
      requires Sane() && f != Content
      modifies `overrides, `overridesset, `inoverride, `expandCache
      ensures ok ==> Sane() && Contents() == old(Contents()) && rank == old(rank)
      ensures ok ==> InForce() == old(InForce()) && (Valid() <==> old(Valid()))
      ensures !ok ==> old(InForce()).None?
      ensures ok ==> forall o :: Possible(InForce(), o) ==> value == FlagParseOf(Contents(), o, rank, n, f).value
    {
      hide Core, Shape, Sound, Ranked, PlainRemoves, Settle, Evaluated, Apply;
      ghost var everything := iset m: Name | |m| >= 0;
      ghost var s, rk := Contents(), rank;
      SaneParts();
      CoreParts(s, rk);
      var parser;
      ok, parser := GetFlag(n, f, s, rk, everything);
      value := parser.value;
      if ok {
        SaneParts();
      }
    }

    method GetFlag(n: Name, f: Flag, ghost s: Store, ghost rk: Name -> nat, ghost dom: iset<Name>)
      returns (ok: bool, parser: Parse)
      requires Sound(s.index) && Ranked(s, rk) && this !in Repr && Core(s, rk) && Flow() && Coherent(s, rk)
      requires Closed(s, dom) && OVERRIDES in dom && (forall t :: Within(t, dom)) && f != Content
      modifies `overrides, `overridesset, `inoverride, `expandCache
      ensures Core(s, rk) && Flow()
      ensures ok ==> Coherent(s, rk) && Advance(s, rk, old(overrides), old(inoverride), overrides, inoverride)
      ensures !ok ==> old(overrides).None? && Settle(s, rk).None?
      ensures ok ==> forall o :: Possible(overrides, o) ==> parser == FlagParseOf(s, o, rk, n, f)
    {
      hide Value, Expand, Settle, ParseOf, Core, Sound, Ranked, Closed, Within;
      var key := OfFlag(n, f);
      if key in expandCache {
        assert forall o :: Possible(overrides, o) ==> expandCache[key] == Evaluated(s, o, rk, key);
        return true, expandCache[key];
      }
      var local := FindVar(n, s, rk);
      ok, parser := true, Parse(None, None, {});
      if local != null && f in local.text {
        var t := local.text[f];
        assert t == FlagsAt(s, n).text[f];
        var v, refs;
        ok, v, refs := ExpandWithRefs(t, s, rk, dom);
        if !ok {
          return;
        }
        parser := Parse(Some(t), Some(v), refs);
      }
      expandCache := expandCache[key := parser];
    }

    // ---- copies ----

    /** createCopy: the copy starts with no variables of its own and with the source's lists. */
    constructor Copy(source: DataSmart)
      requires source.Sane()
      ensures Valid() && overrides == None && expandCache == map[]
      ensures Contents() == source.Contents() && rank == source.rank
      ensures fresh(dict) && dict.own == {} && Repr == source.Repr + {dict} && overridevars == source.overridevars
    {
      hide Sound, Ranked, PlainRemoves, Settle, CoherentWith;
      dict := new Layer(source.dict);
      overridedata := source.overridedata;
      overrides, overridesset, inoverride := None, {}, false;
      overridevars := source.overridevars;
      expandCache := map[];
      index, rank := source.index, source.rank;
      new;
      Repr := source.Repr + {dict};
      assert Shape();
      Begins(source.Contents(), rank);
    }

    /** `createCopy()` */
    method CreateCopy() returns (c: DataSmart)
      requires Sane()
      ensures fresh(c) && c.Valid() && c.Contents() == Contents() && c.rank == rank
      ensures fresh(c.dict) && c.dict.own == {} && c.Repr == Repr + {c.dict} && c.overridevars == overridevars
    {
      c := new DataSmart.Copy(this);
    }
  }

  lemma DelIs(s: Store, o: seq<string>, v: Name)
    requires Sound(s.index) && v != []
    ensures Apply(s, o, DoDelVar(v)) == Writes.DelVar(s, v)
  {
  }

  lemma SetFlagIs(s: Store, o: seq<string>, v: Name, f: Flag, t: Text)
    requires Sound(s.index) && v != []
    ensures var s1 := SetFlags(s, v, FlagsAt(s, v));
            var s2 := SetFlags(s1, v, FlagsAt(s1, v).(text := FlagsAt(s1, v).text[f := t]));
            Apply(s, o, DoSetFlag(v, f, t)) == if f == DefaultVal && |v| > 1 then s2.(index := Update(s2.index, v)) else s2
  {
    var fl := FlagsAt(s, v);
    assert s.vars[v := fl][v := fl.(text := fl.text[f := t])] == s.vars[v := fl.(text := fl.text[f := t])];
  }

  lemma DelFlagIs(s: Store, o: seq<string>, v: Name, f: Flag)
    requires Sound(s.index) && v != []
    ensures var s1 := SetFlags(s, v, FlagsAt(s, v));
            Apply(s, o, DoDelFlag(v, f)) ==
              if FlagsAt(s, v) == NO_FLAGS then s
              else if f in FlagsAt(s1, v).text then SetFlags(s1, v, FlagsAt(s1, v).(text := FlagsAt(s1, v).text - {f}))
              else s1
  {
    var fl := FlagsAt(s, v);
    var fl' := fl.(text := fl.text - {f});
    assert s.vars[v := fl][v := fl'] == s.vars[v := fl'];
    assert f !in fl.text ==> fl.text - {f} == fl.text;
  }

  lemma ApplyIs(s: Store, o: seq<string>, v: Name, t: Text, parsing: bool)
    requires Sound(s.index) && v != []
    ensures var k := KeywordAt(v, 1);
            Apply(s, o, DoSetVar(v, t, parsing)) ==
              if k.Some? then AddOp(s, v[..k.value], KeywordOf(v[k.value]).value, Op(t, v[k.value + 1..]))
              else Writes.SetPlain(s, o, v, t, parsing)
  {
  }

  /** A plain setVar in terms of what was in force: that only matters if v has an index entry. */
  lemma PlainIs(s: Store, now: seq<string>, o: seq<string>, v: Name, t: Text, parsing: bool)
    requires Sound(s.index) && v != []
    requires !parsing && v in s.index ==> now == o
    ensures var s1 := if parsing then SetFlags(s, v, FlagsAt(s, v)) else Cleared(s, now, v);
            Stored(s1, v, t) == Writes.SetPlain(s, o, v, t, parsing)
  {
    ClearedIs(s, o, v);
    ClearedIs(s, now, v);
    if parsing {
      var s1 := SetFlags(s, v, FlagsAt(s, v));
      var fl := FlagsAt(s, v).(text := FlagsAt(s, v).text[Content := t]);
      assert s1.vars[v := fl] == s.vars[v := fl];
    }
  }

  lemma CacheIs(cache: Cache, overrides: Option<seq<string>>, s: Store, o: seq<string>, v: Name, t: Text, parsing: bool,
                rk: Name -> nat, rk': Name -> nat, dom: iset<Name>)
    requires Sound(s.index) && Ranked(s, rk) && PlainRemoves(s) && v != [] && KeywordAt(v, 1).None?
    requires Closed(s, dom) && OVERRIDES in dom && dom <= Apart(v)
    requires Ranked(Apply(s, o, DoSetVar(v, t, parsing)), rk')
    requires cache == map[] || CacheFrom(cache, overrides, s, rk, v, dom)
    ensures var s' := Apply(s, o, DoSetVar(v, t, parsing));
            Sound(s'.index) && CoherentWith(cache, overrides, s', rk')
  {
    hide Settle, Apply, CoherentWith, PlainRemoves;
    var w := DoSetVar(v, t, parsing);
    var s' := Apply(s, o, w);
    ApplySoundIff(s, o, w);
    ApplyApart(s, o, w);
    if cache == map[] {
      EmptyCoherent(overrides, s', rk');
    } else {
      var s1 := Writes.DropOps(s, v);
      assert v !in Apart(v);
      WithoutInput(s, rk, v, dom);
      assert AgreeOn(s1, s', dom);
      CoherentFrame(cache, overrides, s1, s', rk, rk', dom);
    }
  }

  /** A write on a variable that is named as the model expects. */
  ghost predicate Fits(w: Write) {
    Allowed(w) && (w.DoSetVar? ==> var k := KeywordAt(w.v, 1); k.Some? && KeywordOf(w.v[k.value]) == Some(Remove) ==> k.value == 1)
  }

  lemma {:induction false} DelVarsPlain(s: Store, vs: seq<Name>)
    requires PlainRemoves(s) && forall v :: v in vs ==> v != []
    ensures PlainRemoves(DelVars(s, vs))
    decreases |vs|
  {
    if vs != [] {
      assert vs[0] in vs && forall v :: v in vs[1..] ==> v in vs;
      forall n | n in DelVar(s, vs[0]).vars && |n| != 1 ensures OpsAt(DelVar(s, vs[0]), n, Remove) == [] {
        assert n != vs[0] ==> OpsAt(s, n, Remove) == [];
      }
      DelVarsPlain(DelVar(s, vs[0]), vs[1..]);
    }
  }

  /** No write puts a removal on a qualified name. */
  lemma ApplyPlain(s: Store, o: seq<string>, w: Write)
    requires Sound(s.index) && PlainRemoves(s) && Fits(w)
    ensures PlainRemoves(Apply(s, o, w))
  {
    if w.DoSetVar? && KeywordAt(w.v, 1).None? {
      if w.parsing {
        StoredPlain(s, w.v, w.text);
      } else {
        ClearedPlain(s, o, w.v);
        StoredPlain(Cleared(s, o, w.v), w.v, w.text);
      }
    } else {
      hide Cleared, Stored, Update, Forget;
      assert forall n :: n in s.vars && |n| != 1 ==> OpsAt(s, n, Remove) == [];
    }
  }

  lemma StoredPlain(s: Store, v: Name, t: Text)
    requires PlainRemoves(s) && v != []
    ensures PlainRemoves(Stored(s, v, t))
  {
    hide Update;
    assert forall n :: n in s.vars && |n| != 1 ==> OpsAt(s, n, Remove) == [];
  }

  lemma {:induction false} ClearedPlain(s: Store, o: seq<string>, v: Name)
    requires Sound(s.index) && PlainRemoves(s) && v != []
    ensures PlainRemoves(Cleared(s, o, v))
  {
    ClearedIs(s, o, v);
    var s1 := DropOps(s, v);
    forall n | n in s1.vars && |n| != 1 ensures OpsAt(s1, n, Remove) == [] {
      assert n != v ==> OpsAt(s, n, Remove) == [];
    }
    if v in s.index {
      DelVarsPlain(s1, ActiveNames(s.index[v], o));
    }
  }

  /** What a covered write keeps: the shape of the index, and what OVERRIDES settles on. */
  lemma WriteKeeps(s: Store, o: seq<string>, w: Write, rk: Name -> nat, rk': Name -> nat, dom: iset<Name>)
    requires Sound(s.index) && Ranked(s, rk) && PlainRemoves(s) && Fits(w)
    requires Closed(s, dom) && OVERRIDES in dom && dom <= Apart(Aim(w))
    requires Ranked(Apply(s, o, w), rk')
    ensures var s' := Apply(s, o, w);
            && Sound(s'.index) && PlainRemoves(s') && AgreeOn(s, s', dom) && Settle(s', rk') == Settle(s, rk)
  {
    hide Settle, Apply, Closed, Ranked;
    ApplySoundIff(s, o, w);
    ApplyPlain(s, o, w);
    ApplyApart(s, o, w);
    SettleFrame(s, Apply(s, o, w), rk, rk', dom);
  }

  /** OVERRIDES cannot reach v, nor a name that is a colon-prefix or colon-extension of it. */
  ghost predicate Unread(s: Store, v: Name) {
    exists dom: iset<Name> :: Closed(s, dom) && OVERRIDES in dom && dom <= Apart(v)
  }

  /** A write to such a variable keeps what OVERRIDES settles on. */
  lemma UnreadKeeps(s: Store, o: seq<string>, w: Write, rk: Name -> nat, rk': Name -> nat)
    requires Sound(s.index) && Ranked(s, rk) && PlainRemoves(s) && Fits(w) && Ranked(Apply(s, o, w), rk')
    ensures var s' := Apply(s, o, w);
            && Sound(s'.index) && PlainRemoves(s')
            && (Unread(s, Aim(w)) ==> Settle(s', rk') == Settle(s, rk))
  {
    hide Settle, Apply, Closed, Ranked;
    ApplySoundIff(s, o, w);
    ApplyPlain(s, o, w);
    if Unread(s, Aim(w)) {
      var dom: iset<Name> :| Closed(s, dom) && OVERRIDES in dom && dom <= Apart(Aim(w));
      WriteKeeps(s, o, w, rk, rk', dom);
    }
  }

  /** Cache entries for variables in dom stay right when only variables outside dom change. */
  lemma CoherentFrame(cache: Cache, overrides: Option<seq<string>>, s: Store, s': Store, rk: Name -> nat, rk': Name -> nat, dom: iset<Name>)
    requires Sound(s.index) && Sound(s'.index) && Ranked(s, rk) && Ranked(s', rk')
    requires Closed(s, dom) && AgreeOn(s, s', dom)
    requires CoherentWith(cache, overrides, s, rk) && KeysWithin(map[], cache, dom)
    ensures CoherentWith(cache, overrides, s', rk')
  {
    forall key, o | key in cache && Possible(overrides, o) ensures cache[key] == Evaluated(s', o, rk', key) {
      ParseFrame(s, s', o, rk, rk', dom, key.n);
    }
  }

  /** The cache entries that settling the override list leaves while setVar(v) is under way. */
  ghost predicate CacheFrom(cache: Cache, overrides: Option<seq<string>>, s: Store, rk: Name -> nat, v: Name, dom: iset<Name>) {
    var s1 := Writes.DropOps(s, v);
    Sound(s1.index) && Ranked(s1, rk) && CoherentWith(cache, overrides, s1, rk) && KeysWithin(map[], cache, dom)
  }

  lemma EmptyCoherent(overrides: Option<seq<string>>, s: Store, rk: Name -> nat)
    requires Sound(s.index) && Ranked(s, rk)
    ensures CoherentWith(map[], overrides, s, rk)
  {
  }

  /** Dropping the operations of v adds no reference. */
  lemma WithoutOps(s: Store, rk: Name -> nat, v: Name)
    requires Sound(s.index) && Ranked(s, rk)
    ensures var s1 := Writes.DropOps(s, v);
            && Sound(s1.index) && Ranked(s1, rk) && (PlainRemoves(s) ==> PlainRemoves(s1))
            && forall n, t :: HasText(s1, n, t) ==> HasText(s, n, t)
  {
    var s1 := Writes.DropOps(s, v);
    forall n, t | HasText(s1, n, t) ensures HasText(s, n, t) {
      assert FlagsAt(s1, n).text == FlagsAt(s, n).text;
      assert forall k :: OpsAt(s1, n, k) == if n == v then [] else OpsAt(s, n, k);
    }
  }

  /** If OVERRIDES cannot reach v, it keeps what OVERRIDES can reach, too. */
  lemma WithoutInput(s: Store, rk: Name -> nat, v: Name, dom: iset<Name>)
    requires Sound(s.index) && Ranked(s, rk) && Closed(s, dom) && OVERRIDES in dom && v !in dom
    ensures var s1 := Writes.DropOps(s, v);
            && Sound(s1.index) && Ranked(s1, rk) && Closed(s1, dom) && Settle(s1, rk) == Settle(s, rk)
  {
    hide Settle, Ranked;
    WithoutOps(s, rk, v);
    var s1 := Writes.DropOps(s, v);
    assert AgreeOn(s, s1, dom);
    SettleFrame(s, s1, rk, rk, dom);
  }

  /** The variables in ns have no value, whichever override list turns out to be in force. */
  ghost predicate AllUnset(s: Store, rank: Name -> nat, overrides: Option<seq<string>>, ns: set<Name>)
    requires Sound(s.index) && Ranked(s, rank)
  {
    forall n, o :: n in ns && Possible(overrides, o) ==> Value(s, o, rank, n) == None
  }

  ghost predicate SomewhereUnset(s: Store, rank: Name -> nat, n: Name)
    requires Sound(s.index) && Ranked(s, rank)
  {
    exists o :: Value(s, o, rank, n) == None
  }

  lemma UnsetSomewhere(s: Store, rank: Name -> nat, overrides: Option<seq<string>>, ns: set<Name>)
    requires Sound(s.index) && Ranked(s, rank) && AllUnset(s, rank, overrides, ns)
    ensures forall n :: n in ns ==> SomewhereUnset(s, rank, n)
  {
    hide Value;
    var o := if overrides.Some? then overrides.value else [];
    assert Possible(overrides, o);
  }

  lemma UnsetIsNone(s: Store, rank: Name -> nat, overrides: Option<seq<string>>, ns: set<Name>, n: Name, v: Option<Text>)
    requires Sound(s.index) && Ranked(s, rank) && n in ns && forall o :: Possible(overrides, o) ==> v == Value(s, o, rank, n)
    ensures AllUnset(s, rank, overrides, ns) ==> v == None
  {
    hide Value;
    var o := if overrides.Some? then overrides.value else [];
    assert Possible(overrides, o);
  }

  /** A list that settles leaves fewer lists possible. */
  lemma StillUnset(s: Store, rank: Name -> nat, before: Option<seq<string>>, after: Option<seq<string>>, ns: set<Name>, ms: set<Name>)
    requires Sound(s.index) && Ranked(s, rank) && (before.Some? ==> after == before)
    ensures AllUnset(s, rank, before, ns) ==> AllUnset(s, rank, after, ns)
    ensures AllUnset(s, rank, before, ms) ==> AllUnset(s, rank, after, ms)
  {
    hide Value;
  }

  /** What is referred to while expanding t is in t, or unset. */
  lemma RefsUnset(s: Store, rank: Name -> nat, overrides: Option<seq<string>>, t: Text, refs: set<Name>)
    requires Sound(s.index) && Ranked(s, rank)
    requires forall o :: Possible(overrides, o) ==> refs == Refs(t) + Refs(Expand(s, o, rank, t))
    ensures Refs(t) <= refs && forall x :: x in refs && x !in Refs(t) ==> SomewhereUnset(s, rank, x)
  {
    hide Value, Expand;
    var o := if overrides.Some? then overrides.value else [];
    assert Possible(overrides, o);
    ExpandSettles(s, o, rank, t);
    forall x | x in refs && x !in Refs(t) ensures Value(s, o, rank, x) == None {
      assert Ref(x) in Expand(s, o, rank, t);
    }
  }

  /** A value refers to unset variables only. */
  lemma ValueRefsUnset(s: Store, rank: Name -> nat, overrides: Option<seq<string>>, n: Name, v: Text, refs: set<Name>)
    requires Sound(s.index) && Ranked(s, rank)
    requires forall o :: Possible(overrides, o) ==> Value(s, o, rank, n) == Some(v)
    requires forall o :: Possible(overrides, o) ==> refs == Refs(v) + Refs(Expand(s, o, rank, v))
    ensures AllUnset(s, rank, overrides, refs)
  {
    hide Value, Expand;
    forall x, o | x in refs && Possible(overrides, o) ensures Value(s, o, rank, x) == None {
      ValueSettles(s, o, rank, n);
      SettledStays(s, o, rank, v);
      assert Ref(x) in v;
    }
  }

  lemma DefinitionsLonger(s: Store, v: Name, o: seq<string>)
    requires Sound(s.index) && v in s.index
    ensures forall a :: a in ActiveNames(s.index[v], o) ==> a != [] && a != v
  {
    assert SoundList(v, s.index[v]);
    ActiveNamesLonger(v, s.index[v], o);
  }

  lemma ClearedIs(s: Store, o: seq<string>, v: Name)
    requires Sound(s.index) && v != []
    ensures v !in s.index ==> Cleared(s, o, v) == Writes.DropOps(s, v)
    ensures v in s.index ==>
              (forall a :: a in ActiveNames(s.index[v], o) ==> a != []) &&
              var s2 := DelVars(Writes.DropOps(s, v), ActiveNames(s.index[v], o));
              Cleared(s, o, v) == s2.(index := s2.index - {v})
  {
    if v in s.index {
      assert SoundList(v, s.index[v]);
      ActiveNamesLonger(v, s.index[v], o);
    }
  }

  lemma ExpandNothing(s: Store, rk: Name -> nat)
    requires Sound(s.index) && Ranked(s, rk)
    ensures forall o :: Expand(s, o, rk, []) == []
  {
  }

  lemma NothingRemoved(s: Store, rk: Name -> nat, n: Name)
    requires Sound(s.index) && Ranked(s, rk)
    ensures forall o :: RemovedBy(s, o, rk, n, []) == {}
  {
  }

  lemma TopAtMost(t: Text, rk: Name -> nat, b: nat)
    requires Below(t, rk, b)
    ensures Top(t, rk) <= b
  {
  }

  function SeqSetOf<T(==)>(s: seq<T>): (r: set<T>)
    ensures r == SeqSet(s)
  {
    set c | c in s
  }

  /** `:remove` is only used on names without overrides. */
  ghost predicate PlainRemoves(s: Store) {
    forall n :: n in s.vars && |n| != 1 ==> OpsAt(s, n, Remove) == []
  }
}
