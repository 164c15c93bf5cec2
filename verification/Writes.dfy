// What the writing operations of the datastore do to its contents, and what they leave alone.
module Writes {
  import opened PyStrings
  import opened Options
  import opened DataTypes
  import opened OverrideIndex
  import opened OverrideChoice
  import opened Evaluation

  // ---- the operations on the contents ----

  function SetFlags(s: Store, n: Name, fl: Flags): Store {
    s.(vars := s.vars[n := fl])
  }

  function DelVar(s: Store, v: Name): Store
    requires v != []
  {
    Store(s.vars[v := NO_FLAGS], Forget(s.index, v))
  }

  function SetText(s: Store, v: Name, f: Flag, t: Text): Store {
    SetFlags(s, v, FlagsAt(s, v).(text := FlagsAt(s, v).text[f := t]))
  }

  /** `setVarFlag(v, f, t)` */
  function SetVarFlag(s: Store, v: Name, f: Flag, t: Text): Store
    requires v != []
  {
    var s' := SetText(s, v, f, t);
    if f == DefaultVal && |v| > 1 then s'.(index := Update(s'.index, v)) else s'
  }

  /** `delVarFlag(v, f)` */
  function DelVarFlag(s: Store, v: Name, f: Flag): Store {
    if FlagsAt(s, v) == NO_FLAGS then s
    else SetFlags(s, v, FlagsAt(s, v).(text := FlagsAt(s, v).text - {f}))
  }

  /** Adding `[value, override]` to a keyword list of base. */
  function AddOp(s: Store, base: Name, k: Keyword, op: Op): Store
    requires base != []
  {
    var fl := FlagsAt(s, base);
    var s' := SetFlags(s, base, fl.(ops := fl.ops[k := OpsAt(s, base, k) + [op]]));
    s'.(index := Update(s'.index, base))
  }

  /** The override-qualified definitions of v that are active, in index order. */
  function ActiveNames(es: seq<Entry>, o: seq<string>): seq<Name> {
    if es == [] then []
    else ActiveNames(es[..|es| - 1], o) + (if Active(es[|es| - 1].o, o) then [es[|es| - 1].r] else [])
  }

  function DelVars(s: Store, vs: seq<Name>): Store
    requires forall v :: v in vs ==> v != []
    decreases |vs|
  {
    if vs == [] then s
    else
      assert vs[0] in vs && forall v :: v in vs[1..] ==> v in vs;
      DelVars(DelVar(s, vs[0]), vs[1..])
  }

  function DropOps(s: Store, v: Name): Store {
    SetFlags(s, v, FlagsAt(s, v).(ops := map[]))
  }

  /** What a plain `setVar(v, ...)` clears before it stores the value, under the overrides o. */
  function Cleared(s: Store, o: seq<string>, v: Name): Store
    requires Sound(s.index)
  {
    var s1 := DropOps(s, v);
    if v in s1.index then
      ActiveNamesLonger(v, s1.index[v], o);
      var s2 := DelVars(s1, ActiveNames(s1.index[v], o));
      s2.(index := s2.index - {v})
    else s1
  }

  /** Storing the value, after registering a qualified name. */
  function Stored(s: Store, v: Name, t: Text): Store
    requires v != []
  {
    var s' := if |v| > 1 then s.(index := Update(s.index, v)) else s;
    SetText(s', v, Content, t)
  }

  /** `setVar(v, t, parsing)` for a name without an operation keyword. */
  function SetPlain(s: Store, o: seq<string>, v: Name, t: Text, parsing: bool): Store
    requires Sound(s.index) && v != []
  {
    Stored(if parsing then s else Cleared(s, o, v), v, t)
  }

  /** Where the operation keyword of a name is, as `__setvar_regexp__` finds it. */
  function KeywordOf(c: string): Option<Keyword> {
    if c == "append" then Some(Append)
    else if c == "prepend" then Some(Prepend)
    else if c == "remove" then Some(Remove)
    else None
  }

  predicate NoCapitals(parts: seq<string>) {
    forall i, j :: 0 <= i < |parts| && 0 <= j < |parts[i]| ==> !('A' <= parts[i][j] <= 'Z')
  }

  function KeywordAt(v: Name, i: nat): (r: Option<nat>)
    requires 1 <= i
    ensures r.Some? ==> i <= r.value < |v| && KeywordOf(v[r.value]).Some? && NoCapitals(v[r.value + 1..])
    decreases |v| - i
  {
    if i >= |v| then None
    else if KeywordOf(v[i]).Some? && NoCapitals(v[i + 1..]) then Some(i)
    else KeywordAt(v, i + 1)
  }

  /** `setVar(v, t)`, with or without parsing=True, under the overrides o. */
  function SetVar(s: Store, o: seq<string>, v: Name, t: Text, parsing: bool): Store
    requires Sound(s.index) && v != []
  {
    var k := KeywordAt(v, 1);
    if k.Some? then AddOp(s, v[..k.value], KeywordOf(v[k.value]).value, Op(t, v[k.value + 1..]))
    else SetPlain(s, o, v, t, parsing)
  }

  /** The name whose entry a write changes. */
  function Target(v: Name): Name
    requires v != []
  {
    var k := KeywordAt(v, 1);
    if k.Some? then v[..k.value] else v
  }

  // ---- soundness of the index is kept ----

  /** The naming rule: a name with no colon does not start like an override. */
  predicate WellNamed(v: Name) {
    v != [] && (|v| > 1 || !OverrideStart(v[0]))
  }

  lemma {:induction false} ActiveNamesLonger(v: Name, es: seq<Entry>, o: seq<string>)
    requires forall e :: e in es ==> |v| < |e.r| && e.r == v + e.o
    ensures forall a :: a in ActiveNames(es, o) ==> a != [] && v <= a && a != v
  {
    if es != [] {
      ActiveNamesLonger(v, es[..|es| - 1], o);
      assert es[|es| - 1] in es;
    }
  }

  lemma {:induction false} DelVarsSound(s: Store, vs: seq<Name>)
    requires Sound(s.index) && forall v :: v in vs ==> v != []
    ensures Sound(DelVars(s, vs).index)
    decreases |vs|
  {
    if vs != [] {
      assert vs[0] in vs && forall v :: v in vs[1..] ==> v in vs;
      ForgetSound(s.index, vs[0]);
      DelVarsSound(DelVar(s, vs[0]), vs[1..]);
    }
  }

  lemma ClearedSound(s: Store, o: seq<string>, v: Name)
    requires Sound(s.index) && v != []
    ensures Sound(Cleared(s, o, v).index) && v !in Cleared(s, o, v).index
  {
    if v in s.index {
      assert SoundList(v, s.index[v]);
      ActiveNamesLonger(v, s.index[v], o);
      DelVarsSound(DropOps(s, v), ActiveNames(s.index[v], o));
    }
  }

  // ---- frames ----

  /** The names that a write to v cannot touch: those that are no colon-prefix or -extension of v. */
  ghost function Apart(v: Name): iset<Name> {
    iset m: Name | !Related(m, v)
  }

  lemma PrefixesCompare(a: Name, b: Name, m: Name)
    requires a <= m && b <= m
    ensures Related(a, b)
  {
    assert a == m[..|a|] && b == m[..|b|];
    if |a| <= |b| {
      assert b[..|a|] == a;
    } else {
      assert a[..|b|] == b;
    }
  }

  lemma PrefixTransitive(a: Name, b: Name, m: Name)
    requires a <= b && b <= m
    ensures a <= m
  {
    assert a == b[..|a|] == m[..|a|];
  }

  lemma ApartFromLonger(v: Name, a: Name, m: Name)
    requires v <= a && m in Apart(v)
    ensures m in Apart(a)
  {
    if m <= a {
      PrefixesCompare(m, v, a);
    } else if a <= m {
      PrefixTransitive(v, a, m);
    }
  }

  lemma UpdateApart(s: Store, v: Name)
    requires WellNamed(v)
    ensures forall m :: m in Apart(v) ==> EntriesAt(s.(index := Update(s.index, v)), m) == EntriesAt(s, m)
  {
    if |v| > 1 {
      forall m | m in Apart(v) ensures ListAt(Update(s.index, v), m) == ListAt(s.index, m) {
        UpdateAt(s.index, v, m);
      }
    }
  }

  lemma DelVarApart(s: Store, v: Name)
    requires v != []
    ensures AgreeOn(s, DelVar(s, v), Apart(v))
  {
    forall m | m in Apart(v)
      ensures FlagsAt(s, m) == FlagsAt(DelVar(s, v), m) && EntriesAt(s, m) == EntriesAt(DelVar(s, v), m)
    {
      assert m != v;
      ForgetAt(s.index, v, m);
    }
  }

  lemma {:induction false} DelVarsApart(s: Store, vs: seq<Name>, v: Name)
    requires forall a :: a in vs ==> a != [] && v <= a
    ensures AgreeOn(s, DelVars(s, vs), Apart(v))
    decreases |vs|
  {
    if vs != [] {
      assert vs[0] in vs && forall a :: a in vs[1..] ==> a in vs;
      DelVarApart(s, vs[0]);
      forall m | m in Apart(v) ensures m in Apart(vs[0]) {
        ApartFromLonger(v, vs[0], m);
      }
      DelVarsApart(DelVar(s, vs[0]), vs[1..], v);
    }
  }

  lemma ClearedApart(s: Store, o: seq<string>, v: Name)
    requires Sound(s.index) && v != []
    ensures AgreeOn(s, Cleared(s, o, v), Apart(v))
  {
    var s1 := DropOps(s, v);
    assert AgreeOn(s, s1, Apart(v));
    if v in s.index {
      assert SoundList(v, s.index[v]);
      ActiveNamesLonger(v, s.index[v], o);
      DelVarsApart(s1, ActiveNames(s.index[v], o), v);
    }
  }

  lemma StoredApart(s: Store, v: Name, t: Text)
    requires v != []
    ensures AgreeOn(s, Stored(s, v, t), Apart(v))
  {
    if |v| > 1 {
      UpdateApart(s, v);
    }
  }

  // ---- whole runs of writes ----

  datatype Write =
    | DoSetVar(v: Name, text: Text, parsing: bool)
    | DoSetFlag(v: Name, flag: Flag, text: Text)
    | DoDelVar(v: Name)
    | DoDelFlag(v: Name, flag: Flag)

  /** `appendVar` and `prependVar` are setVar calls on a name with the keyword behind it. */
  function DoAppend(v: Name, t: Text): Write {
    DoSetVar(v + ["append"], t, true)
  }

  function DoPrepend(v: Name, t: Text): Write {
    DoSetVar(v + ["prepend"], t, true)
  }

  /** The variable that a write is about. */
  function Aim(w: Write): Name
    requires w.v != []
  {
    if w.DoSetVar? then Target(w.v) else w.v
  }

  /** Only the operations behind a keyword register a name with no colon, which must not start like an override. */
  ghost predicate Allowed(w: Write) {
    w.v != [] && (w.DoSetVar? && KeywordAt(w.v, 1).Some? ==> WellNamed(Aim(w)))
  }

  function Apply(s: Store, o: seq<string>, w: Write): Store
    requires Sound(s.index) && w.v != []
  {
    match w
    case DoSetVar(v, t, parsing) => SetVar(s, o, v, t, parsing)
    case DoSetFlag(v, f, t) => SetVarFlag(s, v, f, t)
    case DoDelVar(v) => DelVar(s, v)
    case DoDelFlag(v, f) => DelVarFlag(s, v, f)
  }

  /** A write keeps the override index sound exactly if it is allowed: only a keyword on a name like do_x:append is not. */
  lemma ApplySoundIff(s: Store, o: seq<string>, w: Write)
    requires Sound(s.index) && w.v != []
    ensures Sound(Apply(s, o, w).index) <==> Allowed(w)
  {
    match w
    case DoSetVar(v, t, parsing) =>
      if KeywordAt(v, 1).Some? {
        UpdateSoundIff(s.index, Aim(w));
      } else {
        ClearedSound(s, o, v);
        UpdateSoundIff(s.index, v);
        UpdateSoundIff(Cleared(s, o, v).index, v);
      }
    case DoSetFlag(v, f, t) => UpdateSoundIff(s.index, v);
    case DoDelVar(v) => ForgetSound(s.index, v);
    case DoDelFlag(v, f) =>
  }

  /** Every write leaves the names apart from its variable alone. */
  lemma {:induction false} ApplyApart(s: Store, o: seq<string>, w: Write)
    requires Sound(s.index) && Allowed(w)
    ensures AgreeOn(s, Apply(s, o, w), Apart(Aim(w)))
  {
    hide Update, DelVar, Cleared, Stored, OpsAt, Sound, NoCapitals;
    match w
    case DoSetVar(v, t, parsing) =>
      if KeywordAt(v, 1).Some? {
        UpdateApart(s, Aim(w));
      } else if parsing {
        StoredApart(s, v, t);
      } else {
        ClearedApart(s, o, v);
        StoredApart(Cleared(s, o, v), v, t);
      }
    case DoSetFlag(v, f, t) =>
      if |v| > 1 {
        UpdateApart(s, v);
      }
    case DoDelVar(v) => DelVarApart(s, v);
    case DoDelFlag(v, f) =>
  }

  /** dom contains the override-qualified definitions of its members. */
  ghost predicate IndexClosed(s: Store, dom: iset<Name>) {
    forall n, e :: n in dom && e in EntriesAt(s, n) ==> e.r in dom
  }

  /** The unexpanded read of n only looks at n and at the definitions registered for it. */
  lemma {:induction false} RawLocal(s: Store, s': Store, o: seq<string>, dom: iset<Name>, n: Name, noweakdefault: bool, parsing: bool)
    requires Sound(s.index) && Sound(s'.index) && IndexClosed(s, dom) && AgreeOn(s, s', dom) && n in dom
    ensures RawIn(s, o, n, noweakdefault, parsing) == RawIn(s', o, n, noweakdefault, parsing)
    decreases AtLeastAsLong(s, n)
  {
    hide Choose, Appended, Prepended;
    var chosen := if parsing then None else Chosen(s, o, n);
    if chosen.Some? {
      assert n in s.index && SoundList(n, s.index[n]);
      assert n in AtLeastAsLong(s, n) && n !in AtLeastAsLong(s, chosen.value);
      assert AtLeastAsLong(s, chosen.value) <= AtLeastAsLong(s, n);
      RawLocal(s, s', o, dom, chosen.value, false, false);
    }
  }

  lemma ApartIsClosed(s: Store, v: Name)
    requires Sound(s.index)
    ensures IndexClosed(s, Apart(v))
  {
    forall n, e | n in Apart(v) && e in EntriesAt(s, n) ensures e.r in Apart(v) {
      assert SoundList(n, s.index[n]);
      LongerStaysApart(v, n, e.r);
    }
  }

  lemma LongerStaysApart(v: Name, n: Name, m: Name)
    requires n in Apart(v) && n <= m
    ensures m in Apart(v)
  {
    if m <= v {
      PrefixTransitive(n, m, v);
    } else if v <= m {
      PrefixesCompare(v, n, m);
    }
  }

  /** The contents after a run of writes; each is made under the override list of its moment. */
  function Run(s: Store, ws: seq<(Write, seq<string>)>): (r: Store)
    requires Sound(s.index) && forall i :: 0 <= i < |ws| ==> Allowed(ws[i].0)
    ensures Sound(r.index)
    decreases |ws|
  {
    if ws == [] then s
    else
      assert Allowed(ws[0].0);
      ApplySoundIff(s, ws[0].1, ws[0].0);
      Run(Apply(s, ws[0].1, ws[0].0), ws[1..])
  }

  /**
   * Over any run of writes, a name that is no colon-prefix and no colon-extension of any variable
   * written keeps its unexpanded reads.
   */
  lemma {:induction false} RunFrame(s: Store, ws: seq<(Write, seq<string>)>, o: seq<string>, n: Name, noweakdefault: bool, parsing: bool)
    requires Sound(s.index) && forall i :: 0 <= i < |ws| ==> Allowed(ws[i].0) && n in Apart(Aim(ws[i].0))
    ensures RawIn(Run(s, ws), o, n, noweakdefault, parsing) == RawIn(s, o, n, noweakdefault, parsing)
    decreases |ws|
  {
    if ws != [] {
      var s' := Apply(s, ws[0].1, ws[0].0);
      ApplySoundIff(s, ws[0].1, ws[0].0);
      ApplyApart(s, ws[0].1, ws[0].0);
      ApartIsClosed(s, Aim(ws[0].0));
      RawLocal(s, s', o, Apart(Aim(ws[0].0)), n, noweakdefault, parsing);
      RunFrame(s', ws[1..], o, n, noweakdefault, parsing);
    }
  }

  // ---- what a write makes its own variable read ----

  /** A plain setVar makes the unexpanded read of its variable the new text, whatever the overrides. */
  lemma SetVarReads(s: Store, o: seq<string>, o': seq<string>, v: Name, t: Text)
    requires Sound(s.index) && v != [] && KeywordAt(v, 1).None?
    ensures var s' := SetVar(s, o, v, t, false);
            Sound(s'.index) && Raw(s', o', v) == Some(t)
  {
    ApplySoundIff(s, o, DoSetVar(v, t, false));
    var c := Cleared(s, o, v);
    ClearedSound(s, o, v);
    ClearedFlags(s, o, v);
    if |v| > 1 {
      UpdateAt(c.index, v, v);
    }
    var s' := SetVar(s, o, v, t, false);
    assert EntriesAt(s', v) == [];
    assert Chosen(s', o', v).None?;
  }

  lemma {:induction false} DelVarsFlags(s: Store, vs: seq<Name>, v: Name)
    requires forall a :: a in vs ==> a != [] && a != v
    ensures FlagsAt(DelVars(s, vs), v) == FlagsAt(s, v)
    decreases |vs|
  {
    if vs != [] {
      assert vs[0] in vs && forall a :: a in vs[1..] ==> a in vs;
      DelVarsFlags(DelVar(s, vs[0]), vs[1..], v);
    }
  }

  lemma ClearedFlags(s: Store, o: seq<string>, v: Name)
    requires Sound(s.index) && v != []
    ensures FlagsAt(Cleared(s, o, v), v) == FlagsAt(s, v).(ops := map[])
  {
    if v in s.index {
      assert SoundList(v, s.index[v]);
      ActiveNamesLonger(v, s.index[v], o);
      DelVarsFlags(DropOps(s, v), ActiveNames(s.index[v], o), v);
    }
  }

  /** A deleted variable reads as unset, and no list of the index mentions it any more. */
  lemma DelVarReads(s: Store, o: seq<string>, v: Name)
    requires Sound(s.index) && v != []
    ensures var s' := DelVar(s, v);
            && Sound(s'.index) && Raw(s', o, v) == None
            && forall n, e :: e in EntriesAt(s', n) ==> e.r != v
  {
    ForgetSound(s.index, v);
    var s' := DelVar(s, v);
    assert EntriesAt(s', v) == [];
    assert Chosen(s', o, v).None?;
  }

  /** appendVar puts the text behind the unexpanded read, prependVar before it. */
  lemma AppendVarReads(s: Store, o: seq<string>, o': seq<string>, v: Name, t: Text)
    requires Sound(s.index) && WellNamed(v) && KeywordAt(v, 1).None?
    ensures var s' := Apply(s, o, DoAppend(v, t));
            Sound(s'.index) && Raw(s', o', v) == Some(OrEmpty(Raw(s, o', v)) + t)
    ensures var s' := Apply(s, o, DoPrepend(v, t));
            Sound(s'.index) && Raw(s', o', v) == Some(t + OrEmpty(Raw(s, o', v)))
  {
    KeywordBehind(v, "append", [], 1);
    KeywordBehind(v, "prepend", [], 1);
    assert v + ["append"] + [] == v + ["append"] && v + ["prepend"] + [] == v + ["prepend"];
    assert (v + ["append"])[..|v|] == v && (v + ["append"])[|v| + 1..] == [];
    assert (v + ["prepend"])[..|v|] == v && (v + ["prepend"])[|v| + 1..] == [];
    AppendOpReads(s, o', v, Op(t, []));
    PrependOpReads(s, o', v, Op(t, []));
  }

  predicate Extends(v: Name, m: Name) {
    v <= m && m != v
  }

  /** An added operation leaves the override-qualified definitions of v alone. */
  lemma AddOpBase(s: Store, o: seq<string>, v: Name, k: Keyword, op: Op)
    requires Sound(s.index) && WellNamed(v)
    ensures var s' := AddOp(s, v, k, op); Sound(s'.index) && OverrideText(s', o, v) == OverrideText(s, o, v)
  {
    var s' := AddOp(s, v, k, op);
    UpdateSoundIff(s.index, v);
    var dom := iset m: Name | Extends(v, m);
    forall n, e | n in dom && e in EntriesAt(s, n) ensures e.r in dom {
      assert SoundList(n, s.index[n]);
      PrefixTransitive(v, n, e.r);
    }
    forall m | v <= m ensures EntriesAt(s', m) == EntriesAt(s, m) {
      if |v| > 1 {
        UpdateAt(s.index, v, m);
      }
    }
    assert AgreeOn(s, s', dom);
    var chosen := Chosen(s, o, v);
    if chosen.Some? {
      assert SoundList(v, s.index[v]);
      RawLocal(s, s', o, dom, chosen.value, false, false);
    }
  }

  lemma AppendOpReads(s: Store, o: seq<string>, v: Name, op: Op)
    requires Sound(s.index) && WellNamed(v)
    ensures var s' := AddOp(s, v, Append, op);
            Sound(s'.index) && Raw(s', o, v) == if Applies(op, o) then Some(OrEmpty(Raw(s, o, v)) + op.text) else Raw(s, o, v)
  {
    hide RawIn, OverrideText, Update, Applies;
    var s' := AddOp(s, v, Append, op);
    AddOpBase(s, o, v, Append, op);
    RawIs(s, o, v, false);
    RawIs(s', o, v, false);
    var over := OverrideText(s, o, v);
    var base := if over.Some? then over else Own(s, v, false);
    var a, p := OpsAt(s, v, Append), OpsAt(s, v, Prepend);
    assert OpsAt(s', v, Append) == a + [op] && OpsAt(s', v, Prepend) == p;
    assert (a + [op])[..|a|] == a;
    if Applies(op, o) {
      assert Appended(base, a + [op], o) == Some(OrEmpty(Appended(base, a, o)) + op.text);
      PrependedBehind(Appended(base, a, o), op.text, p, o);
    }
  }

  lemma PrependOpReads(s: Store, o: seq<string>, v: Name, op: Op)
    requires Sound(s.index) && WellNamed(v)
    ensures var s' := AddOp(s, v, Prepend, op);
            Sound(s'.index) && Raw(s', o, v) == if Applies(op, o) then Some(op.text + OrEmpty(Raw(s, o, v))) else Raw(s, o, v)
  {
    hide RawIn, OverrideText, Update, Applies;
    var s' := AddOp(s, v, Prepend, op);
    AddOpBase(s, o, v, Prepend, op);
    RawIs(s, o, v, false);
    RawIs(s', o, v, false);
    var p := OpsAt(s, v, Prepend);
    assert OpsAt(s', v, Append) == OpsAt(s, v, Append) && OpsAt(s', v, Prepend) == p + [op];
    assert (p + [op])[..|p|] == p;
  }

  /** A removal is not looked at by unexpanded reads. */
  lemma RemoveOpReads(s: Store, o: seq<string>, v: Name, op: Op)
    requires Sound(s.index) && WellNamed(v)
    ensures var s' := AddOp(s, v, Remove, op);
            Sound(s'.index) && Raw(s', o, v) == Raw(s, o, v)
  {
    hide RawIn, OverrideText, Update;
    var s' := AddOp(s, v, Remove, op);
    AddOpBase(s, o, v, Remove, op);
    RawIs(s, o, v, false);
    RawIs(s', o, v, false);
    assert OpsAt(s', v, Append) == OpsAt(s, v, Append) && OpsAt(s', v, Prepend) == OpsAt(s, v, Prepend);
  }

  lemma {:induction false} PrependedBehind(v: Option<Text>, t: Text, ops: seq<Op>, o: seq<string>)
    ensures Prepended(Some(OrEmpty(v) + t), ops, o) == Some(OrEmpty(Prepended(v, ops, o)) + t)
  {
    if ops != [] {
      var front, op := ops[..|ops| - 1], ops[|ops| - 1];
      PrependedBehind(v, t, front, o);
      assert op.text + (OrEmpty(Prepended(v, front, o)) + t) == op.text + OrEmpty(Prepended(v, front, o)) + t;
    }
  }

  lemma {:induction false} KeywordBehind(v: Name, c: string, add: seq<string>, i: nat)
    requires 1 <= i <= |v| && KeywordAt(v, i).None?
    requires KeywordOf(c).Some? && NoCapitals(add)
    ensures KeywordAt(v + [c] + add, i) == Some(|v|)
    decreases |v| - i
  {
    var w := v + [c] + add;
    if i < |v| {
      assert w[i + 1..] == v[i + 1..] + ([c] + add) && w[i] == v[i];
      if KeywordOf(v[i]).Some? {
        assert !NoCapitals(v[i + 1..]);
        var a, b :| 0 <= a < |v[i + 1..]| && 0 <= b < |v[i + 1..][a]| && 'A' <= v[i + 1..][a][b] <= 'Z';
        assert w[i + 1..][a] == v[i + 1..][a];
      }
      KeywordBehind(v, c, add, i + 1);
    } else {
      assert w[i] == c && w[i + 1..] == add;
    }
  }
}
