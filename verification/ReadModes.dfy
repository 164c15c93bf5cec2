// Reads that leave the weak default out, or are made while parsing, and what they leave in the cache.
module ReadModes {
  import opened Options
  import opened DataTypes
  import opened OverrideIndex
  import opened OverrideChoice
  import opened Evaluation

  /** The record that `getVar(n, True, noweakdefault, parsing)` computes, and stores where plain reads look. */
  ghost function ParseIn(s: Store, o: seq<string>, rank: Name -> nat, n: Name, noweakdefault: bool, parsing: bool): Parse
    requires Sound(s.index) && Ranked(s, rank)
  {
    RawBelow(s, o, rank, n, noweakdefault, parsing);
    var raw := RawIn(s, o, n, noweakdefault, parsing);
    if raw.None? then Parse(None, None, {})
    else
      OpsBelow(s, rank, n, Remove);
      var t := Expand(s, o, rank, raw.value);
      var value := if parsing then t else Strip(t, RemovedBy(s, o, rank, n, OpsAt(s, n, Remove)));
      Parse(raw, Some(value), Refs(raw.value) + Refs(t))
  }

  /** How the record is put together, in the order of getVarFlag. */
  lemma ParseInIs(s: Store, o: seq<string>, rank: Name -> nat, n: Name, noweakdefault: bool, parsing: bool, raw: Option<Text>, t: Text)
    requires Sound(s.index) && Ranked(s, rank) && raw == RawIn(s, o, n, noweakdefault, parsing)
    requires raw.Some? ==> t == Expand(s, o, rank, raw.value)
    ensures raw.None? ==> ParseIn(s, o, rank, n, noweakdefault, parsing) == Parse(None, None, {})
    ensures raw.Some? ==>
              Below(raw.value, rank, rank(n)) && (forall i :: 0 <= i < |OpsAt(s, n, Remove)| ==> Below(OpsAt(s, n, Remove)[i].text, rank, rank(n)))
              && ParseIn(s, o, rank, n, noweakdefault, parsing) ==
                   Parse(raw, Some(if parsing then t else Strip(t, RemovedBy(s, o, rank, n, OpsAt(s, n, Remove)))), Refs(raw.value) + Refs(t))
    ensures raw.Some? && (parsing || OpsAt(s, n, Remove) == [] || t == []) ==>
              ParseIn(s, o, rank, n, noweakdefault, parsing) == Parse(raw, Some(t), Refs(raw.value) + Refs(t))
  {
    RawBelow(s, o, rank, n, noweakdefault, parsing);
    OpsBelow(s, rank, n, Remove);
    StripNothing(t);
  }

  /** A plain read computes what evaluation without a cache gives. */
  lemma PlainMode(s: Store, o: seq<string>, rank: Name -> nat, n: Name)
    requires Sound(s.index) && Ranked(s, rank)
    ensures ParseIn(s, o, rank, n, false, false) == ParseOf(s, o, rank, n)
  {
    var raw := Raw(s, o, n);
    if raw.Some? {
      ParseInIs(s, o, rank, n, false, false, raw, Expand(s, o, rank, raw.value));
      ParseOfIs(s, o, rank, n, raw, Expand(s, o, rank, raw.value));
    }
  }

  // ---- reads that leave the weak default out ----

  predicate SomeApplies(ops: seq<Op>, overrides: seq<string>) {
    exists i :: 0 <= i < |ops| && Applies(ops[i], overrides)
  }

  lemma {:induction false} AppendedFrom(v: Option<Text>, w: Option<Text>, ops: seq<Op>, o: seq<string>)
    ensures !SomeApplies(ops, o) ==> Appended(v, ops, o) == v
    ensures SomeApplies(ops, o) ==> Appended(v, ops, o).Some?
    ensures |OrEmpty(Appended(v, ops, o))| - |OrEmpty(v)| == |OrEmpty(Appended(w, ops, o))| - |OrEmpty(w)|
    ensures OrEmpty(v) == OrEmpty(w) ==> OrEmpty(Appended(v, ops, o)) == OrEmpty(Appended(w, ops, o))
    decreases |ops|
  {
    if ops != [] {
      var front := ops[..|ops| - 1];
      AppendedFrom(v, w, front, o);
      assert forall i :: 0 <= i < |front| ==> front[i] == ops[i];
      assert SomeApplies(ops, o) <==> SomeApplies(front, o) || Applies(ops[|ops| - 1], o);
      hide Applies, SomeApplies;
    }
  }

  lemma {:induction false} PrependedFrom(v: Option<Text>, w: Option<Text>, ops: seq<Op>, o: seq<string>)
    ensures !SomeApplies(ops, o) ==> Prepended(v, ops, o) == v
    ensures SomeApplies(ops, o) ==> Prepended(v, ops, o).Some?
    ensures |OrEmpty(Prepended(v, ops, o))| - |OrEmpty(v)| == |OrEmpty(Prepended(w, ops, o))| - |OrEmpty(w)|
    ensures OrEmpty(v) == OrEmpty(w) ==> OrEmpty(Prepended(v, ops, o)) == OrEmpty(Prepended(w, ops, o))
    decreases |ops|
  {
    if ops != [] {
      var front := ops[..|ops| - 1];
      PrependedFrom(v, w, front, o);
      assert forall i :: 0 <= i < |front| ==> front[i] == ops[i];
      assert SomeApplies(ops, o) <==> SomeApplies(front, o) || Applies(ops[|ops| - 1], o);
      hide Applies, SomeApplies;
    }
  }

  /** n is read from its weak default, and that makes a difference. */
  ghost predicate WeakDefaultMatters(s: Store, o: seq<string>, n: Name)
    requires Sound(s.index)
  {
    var text := FlagsAt(s, n).text;
    && OverrideText(s, o, n).None? && Content !in text && DefaultVal in text
    && (text[DefaultVal] != [] || (!SomeApplies(OpsAt(s, n, Append), o) && !SomeApplies(OpsAt(s, n, Prepend), o)))
  }

  /** Leaving the weak default out gives another unexpanded value exactly if it matters. */
  lemma NoWeakDefaultIff(s: Store, o: seq<string>, n: Name)
    requires Sound(s.index)
    ensures RawIn(s, o, n, true, false) == Raw(s, o, n) <==> !WeakDefaultMatters(s, o, n)
  {
    RawIs(s, o, n, true);
    RawIs(s, o, n, false);
    var over := OverrideText(s, o, n);
    var a := if over.Some? then over else Own(s, n, true);
    var b := if over.Some? then over else Own(s, n, false);
    var behind, before := OpsAt(s, n, Append), OpsAt(s, n, Prepend);
    AppendedFrom(a, b, behind, o);
    AppendedFrom(b, a, behind, o);
    PrependedFrom(Appended(a, behind, o), Appended(b, behind, o), before, o);
    PrependedFrom(Appended(b, behind, o), Appended(a, behind, o), before, o);
    hide Appended, Prepended, RawIn, Chosen, SomeApplies;
  }

  // ---- reads made while parsing ----

  predicate AddsText(ops: seq<Op>, overrides: seq<string>) {
    exists i :: 0 <= i < |ops| && Applies(ops[i], overrides) && ops[i].text != []
  }

  lemma OneMoreOp(front: seq<Op>, op: Op, o: seq<string>)
    ensures !SomeApplies([], o) && !AddsText([], o)
    ensures SomeApplies(front + [op], o) <==> SomeApplies(front, o) || Applies(op, o)
    ensures AddsText(front + [op], o) <==> AddsText(front, o) || (Applies(op, o) && op.text != [])
  {
    hide Applies;
    var ops := front + [op];
    assert ops[|front|] == op && forall i :: 0 <= i < |front| ==> front[i] == ops[i];
  }

  lemma {:induction false} AppendedChanges(v: Option<Text>, ops: seq<Op>, o: seq<string>)
    ensures AddsText(ops, o) ==> |OrEmpty(Appended(v, ops, o))| > |OrEmpty(v)|
    ensures !AddsText(ops, o) ==> Appended(v, ops, o) == if SomeApplies(ops, o) then Some(OrEmpty(v)) else v
    decreases |ops|
  {
    hide Applies, SomeApplies, AddsText;
    OneMoreOp([], Op([], []), o);
    if ops != [] {
      var front, op := ops[..|ops| - 1], ops[|ops| - 1];
      AppendedChanges(v, front, o);
      assert OrEmpty(Appended(v, front, o)) + [] == OrEmpty(Appended(v, front, o)) == [] + OrEmpty(Appended(v, front, o));
      OneMoreOp(front, op, o);
      assert ops == front + [op];
    }
  }

  lemma {:induction false} PrependedChanges(v: Option<Text>, ops: seq<Op>, o: seq<string>)
    ensures AddsText(ops, o) ==> |OrEmpty(Prepended(v, ops, o))| > |OrEmpty(v)|
    ensures !AddsText(ops, o) ==> Prepended(v, ops, o) == if SomeApplies(ops, o) then Some(OrEmpty(v)) else v
    decreases |ops|
  {
    hide Applies, SomeApplies, AddsText;
    OneMoreOp([], Op([], []), o);
    if ops != [] {
      var front, op := ops[..|ops| - 1], ops[|ops| - 1];
      PrependedChanges(v, front, o);
      assert OrEmpty(Prepended(v, front, o)) + [] == OrEmpty(Prepended(v, front, o)) == [] + OrEmpty(Prepended(v, front, o));
      OneMoreOp(front, op, o);
      assert ops == front + [op];
    }
  }

  /** The text that `:append` operations put behind a value. */
  function Behind(ops: seq<Op>, o: seq<string>): Text {
    if ops == [] then []
    else
      var op := ops[|ops| - 1];
      Behind(ops[..|ops| - 1], o) + if Applies(op, o) then op.text else []
  }

  /** The text that `:prepend` operations put in front of a value. */
  function InFront(ops: seq<Op>, o: seq<string>): Text {
    if ops == [] then []
    else
      var op := ops[|ops| - 1];
      (if Applies(op, o) then op.text else []) + InFront(ops[..|ops| - 1], o)
  }

  lemma {:induction false} OperationsAdd(v: Text, ops: seq<Op>, o: seq<string>)
    ensures Appended(Some(v), ops, o) == Some(v + Behind(ops, o)) && Prepended(Some(v), ops, o) == Some(InFront(ops, o) + v)
    ensures !AddsText(ops, o) ==> Behind(ops, o) == InFront(ops, o) == []
    decreases |ops|
  {
    hide Applies, AddsText;
    if ops == [] {
      assert v + [] == v && [] + v == v;
    } else {
      var front, op := ops[..|ops| - 1], ops[|ops| - 1];
      var add := if Applies(op, o) then op.text else [];
      OperationsAdd(v, front, o);
      OneMoreOp(front, op, o);
      assert ops == front + [op];
      assert v + Behind(front, o) + [] == v + Behind(front, o) && [] + (InFront(front, o) + v) == InFront(front, o) + v;
      assert (v + Behind(front, o)) + add == v + Behind(ops, o) && add + (InFront(front, o) + v) == InFront(ops, o) + v;
    }
  }

  lemma {:induction false} StripSameIff(t: Text, ws: set<Text>)
    ensures Strip(t, ws) == t <==> forall w :: w in Words(t) ==> w !in ws
    ensures |Strip(t, ws)| <= |t|
    decreases |t|
  {
    if t != [] {
      if IsSpace(t[0]) {
        StripSameIff(t[1..], ws);
        assert t == [t[0]] + t[1..];
        assert Strip(t, ws)[1..] == Strip(t[1..], ws);
      } else {
        var w, rest := t[..Run(t)], t[Run(t)..];
        StripSameIff(rest, ws);
        assert t == w + rest && Words(t) == [w] + Words(rest);
        assert forall x :: x in Words(t) <==> x == w || x in Words(rest);
        if w !in ws {
          assert Strip(t, ws)[|w|..] == Strip(rest, ws) && t[|w|..] == rest;
        }
      }
    }
  }

  /** The operations that apply to n change its own text. */
  ghost predicate OpsMatter(s: Store, o: seq<string>, n: Name, own: Option<Text>) {
    var behind, before := OpsAt(s, n, Append), OpsAt(s, n, Prepend);
    AddsText(behind, o) || AddsText(before, o) || (own.None? && (SomeApplies(behind, o) || SomeApplies(before, o)))
  }

  /**
   * The chosen definition reads otherwise than n's own text: it is another text, or if operations add to it, own
   * is not what they make of it.
   */
  ghost predicate ChoiceMatters(s: Store, o: seq<string>, n: Name, over: Text, own: Option<Text>) {
    var behind, before := OpsAt(s, n, Append), OpsAt(s, n, Prepend);
    if AddsText(behind, o) || AddsText(before, o) then own != Some(InFront(before, o) + over + Behind(behind, o))
    else own != Some(over)
  }

  /** A removal that applies takes a word out of the value of n. */
  ghost predicate RemovalMatters(s: Store, o: seq<string>, rank: Name -> nat, n: Name)
    requires Sound(s.index) && Ranked(s, rank)
  {
    RawBelow(s, o, rank, n, false, false);
    OpsBelow(s, rank, n, Remove);
    var raw := Raw(s, o, n);
    raw.Some? && exists w :: w in Words(Expand(s, o, rank, raw.value)) && w in RemovedBy(s, o, rank, n, OpsAt(s, n, Remove))
  }

  predicate UsesWeakDefault(s: Store, n: Name) {
    Content !in FlagsAt(s, n).text && DefaultVal in FlagsAt(s, n).text
  }

  /**
   * The mode of a read matters. While parsing, overrides, operations and removals are left out, and the weak
   * default if that is asked for; otherwise only the weak default is.
   */
  ghost predicate ModeMatters(s: Store, o: seq<string>, rank: Name -> nat, n: Name, noweakdefault: bool, parsing: bool)
    requires Sound(s.index) && Ranked(s, rank)
  {
    if !parsing then noweakdefault && WeakDefaultMatters(s, o, n)
    else
      || (noweakdefault && UsesWeakDefault(s, n))
      || RemovalMatters(s, o, rank, n)
      || var over := OverrideText(s, o, n);
         if over.None? then OpsMatter(s, o, n, Own(s, n, false))
         else ChoiceMatters(s, o, n, over.value, Own(s, n, false))
  }

  lemma {:induction false} OwnSameIff(s: Store, o: seq<string>, n: Name)
    requires Sound(s.index) && OverrideText(s, o, n).None?
    ensures Raw(s, o, n) == Own(s, n, false) <==> !OpsMatter(s, o, n, Own(s, n, false))
  {
    RawIs(s, o, n, false);
    var own, behind, before := Own(s, n, false), OpsAt(s, n, Append), OpsAt(s, n, Prepend);
    AppendedChanges(own, behind, o);
    PrependedChanges(Appended(own, behind, o), before, o);
    hide Appended, Prepended, RawIn, AddsText, SomeApplies;
  }

  lemma {:induction false} ChoiceIs(s: Store, o: seq<string>, n: Name, over: Text)
    ensures Finish(s, o, n, Some(over), false) == Own(s, n, false) <==> !ChoiceMatters(s, o, n, over, Own(s, n, false))
  {
    var behind, before := OpsAt(s, n, Append), OpsAt(s, n, Prepend);
    OperationsAdd(over, behind, o);
    OperationsAdd(over + Behind(behind, o), before, o);
    assert InFront(before, o) + (over + Behind(behind, o)) == InFront(before, o) + over + Behind(behind, o);
    assert [] + over + [] == over;
    hide Appended, Prepended, AddsText;
  }

  lemma {:induction false} ParsingSameIff(s: Store, o: seq<string>, n: Name, noweakdefault: bool)
    requires Sound(s.index)
    ensures RawIn(s, o, n, noweakdefault, true) == Raw(s, o, n) <==>
      !(noweakdefault && UsesWeakDefault(s, n)) &&
      var over := OverrideText(s, o, n);
      if over.None? then !OpsMatter(s, o, n, Own(s, n, false)) else !ChoiceMatters(s, o, n, over.value, Own(s, n, false))
  {
    ParsingRaw(s, o, n, noweakdefault);
    RawIs(s, o, n, false);
    var over, own, behind, before := OverrideText(s, o, n), Own(s, n, false), OpsAt(s, n, Append), OpsAt(s, n, Prepend);
    var base := if over.Some? then over else own;
    AppendedFrom(base, base, behind, o);
    PrependedFrom(Appended(base, behind, o), Appended(base, behind, o), before, o);
    if over.None? {
      OwnSameIff(s, o, n);
    } else {
      ChoiceIs(s, o, n, over.value);
    }
    hide Appended, Prepended, RawIn, AddsText, SomeApplies, OverrideText;
  }

  /** What the read stores is what a plain read would store exactly if the mode does not matter. */
  lemma {:induction false} RecordSameIff(s: Store, o: seq<string>, rank: Name -> nat, n: Name, noweakdefault: bool, parsing: bool)
    requires Sound(s.index) && Ranked(s, rank)
    ensures ParseIn(s, o, rank, n, noweakdefault, parsing) == ParseOf(s, o, rank, n) <==> !ModeMatters(s, o, rank, n, noweakdefault, parsing)
  {
    var raw, plain := RawIn(s, o, n, noweakdefault, parsing), Raw(s, o, n);
    hide Expand, RawIn, Chosen, RemovedBy, Strip, Value;
    if raw.Some? {
      ParseInIs(s, o, rank, n, noweakdefault, parsing, raw, Expand(s, o, rank, raw.value));
    }
    if plain.Some? {
      ParseOfIs(s, o, rank, n, plain, Expand(s, o, rank, plain.value));
      StripSameIff(Expand(s, o, rank, plain.value), RemovedBy(s, o, rank, n, OpsAt(s, n, Remove)));
    }
    if parsing {
      ParsingSameIff(s, o, n, noweakdefault);
    } else if noweakdefault {
      NoWeakDefaultIff(s, o, n);
    }
    hide Finish, OpsMatter, WeakDefaultMatters, Words, OverrideText;
  }
}
