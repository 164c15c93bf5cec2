// Whole runs of reads and writes on one datastore, beside the datastores it was copied from.
module DataRuns {
  import opened PyStrings
  import opened Options
  import opened DataTypes
  import opened OverrideIndex
  import opened Evaluation
  import opened ReadModes
  import opened ActiveOverrides
  import opened Writes
  import opened WriteReads
  import opened DataStore

  datatype Step =
    | Writing(w: Write)
    | Reading(n: Name)
    | ReadingFlag(n: Name, f: Flag)
    | ReadingUnexpanded(n: Name, noweakdefault: bool, parsing: bool)
    | ReadingAs(n: Name, noweakdefault: bool, parsing: bool)

  // ---- what a run is to do, as functions of the contents ----

  /** What OVERRIDES settles on, if it settles. */
  ghost function Settled(s: Store): Option<seq<string>>
    requires Sound(s.index)
  {
    if exists rk: Name -> nat :: Ranked(s, rk) then
      var rk: Name -> nat :| Ranked(s, rk);
      Settle(s, rk)
    else None
  }

  /** It does not matter how references are shown to be acyclic. */
  lemma SettledIs(s: Store, rk: Name -> nat)
    requires Sound(s.index) && Ranked(s, rk)
    ensures Settled(s) == Settle(s, rk)
  {
    hide Settle, Ranked;
    forall rk': Name -> nat | Ranked(s, rk') ensures Settle(s, rk') == Settle(s, rk) {
      var everything := iset m: Name | |m| >= 0;
      assert Closed(s, everything) && AgreeOn(s, s, everything) && OVERRIDES in everything;
      SettleFrame(s, s, rk, rk', everything);
    }
  }

  ghost function ListAt(s: Store): seq<string>
    requires Sound(s.index)
  {
    var o := Settled(s);
    if o.Some? then o.value else []
  }

  /** The contents after the steps: every write is made under the override list that settles at its moment. */
  ghost function After(s: Store, steps: seq<Step>): (r: Store)
    requires Sound(s.index) && forall i :: 0 <= i < |steps| && steps[i].Writing? ==> Allowed(steps[i].w)
    ensures Sound(r.index)
    decreases |steps|
  {
    if steps == [] then s
    else
      var last := steps[|steps| - 1];
      var before := After(s, steps[..|steps| - 1]);
      if !last.Writing? then before
      else
        assert Allowed(last.w);
        ApplySoundIff(before, ListAt(before), last.w);
        Apply(before, ListAt(before), last.w)
  }

  /** What a read should give: evaluation without a cache under the override list that settles, if one does. */
  ghost predicate Right(s: Store, step: Step, value: Option<Text>) {
    Sound(s.index) &&
    forall rk: Name -> nat, o :: Ranked(s, rk) && Possible(Settled(s), o) ==> value == Expected(s, o, rk, step)
  }

  ghost function Expected(s: Store, o: seq<string>, rk: Name -> nat, step: Step): Option<Text>
    requires Sound(s.index) && Ranked(s, rk)
  {
    match step
    case Writing(w) => None
    case Reading(n) => Value(s, o, rk, n)
    case ReadingFlag(n, f) => if f == Content then Value(s, o, rk, n) else FlagParseOf(s, o, rk, n, f).value
    case ReadingUnexpanded(n, noweakdefault, parsing) => RawIn(s, o, n, noweakdefault, parsing)
    case ReadingAs(n, noweakdefault, parsing) => Value(s, o, rk, n)
  }

  /** The list is dropped by the write: its variable is known from the start to be read by OVERRIDES. */
  predicate Drops(w: Write, overridevars: set<Name>)
    requires w.v != []
  {
    match w
    case DoSetVar(v, t, parsing) => Aim(w) in overridevars
    case DoSetFlag(v, f, t) => f == DefaultVal && v in overridevars
    case _ => false
  }

  /** A plain setVar on a variable that has definitions by override. */
  predicate Clears(s: Store, w: Write)
    requires w.v != []
  {
    w.DoSetVar? && KeywordAt(w.v, 1).None? && !w.parsing && w.v in s.index
  }

  /**
   * One step on the contents s is covered: what it writes either cannot be reached by OVERRIDES or is known to
   * be, and references stay acyclic; the mode of an expanding read does not matter.
   */
  ghost predicate Fine(s: Store, step: Step, overridevars: set<Name>, rk: Name -> nat)
    requires Sound(s.index)
  {
    match step
    case Writing(w) =>
      && Fits(w) && Ranked(Apply(s, ListAt(s), w), rk)
      && (Unread(s, Aim(w)) || (Drops(w, overridevars) && !Clears(s, w)))
    case ReadingAs(n, noweakdefault, parsing) =>
      forall rk': Name -> nat, o :: Ranked(s, rk') ==> !ModeMatters(s, o, rk', n, noweakdefault, parsing)
    case _ => true
  }

  /** Every step of the run is. */
  ghost predicate Covered(s: Store, overridevars: set<Name>, steps: seq<Step>, rks: seq<Name -> nat>) {
    && Sound(s.index) && |rks| == |steps|
    && (forall i :: 0 <= i < |steps| && steps[i].Writing? ==> Allowed(steps[i].w))
    && (forall i :: 0 <= i < |steps| ==> Fine(After(s, steps[..i]), steps[i], overridevars, rks[i]))
  }

  // ---- one step ----

  /** No object that d may write belongs to a. */
  ghost predicate Separate(a: DataSmart, d: DataSmart)
    reads a, d, d.dict
  {
    a != d && a.dict != d.dict && d.dict !in a.Repr && d !in a.Repr && forall x :: x in d.dict.own ==> x !in a.Repr
  }

  method Perform(d: DataSmart, w: Write, ghost rk: Name -> nat) returns (ok: bool)
    requires d.Sane() && d.MayWrite(w, rk)
    modifies d, d.dict, d.dict.own
    ensures old(d.Repr) <= d.Repr && fresh(d.Repr - old(d.Repr)) && fresh(d.dict.own - old(d.dict.own))
    ensures !ok ==> if old(d.NeedsList(w)) then old(d.InForce()).None? else !old(d.SettlesAfter(w, rk))
    ensures ok ==> d.Sane() && d.rank == rk && old(d.overridevars) <= d.overridevars && d.Contents() == old(d.AfterWrite(w))
    ensures ok && (old(d.KeepsList(Aim(w))) || Drops(w, old(d.overridevars))) ==> d.Valid()
  {
    hide Settle, Apply, DataSmart.Core, DataSmart.Flow, DataSmart.KeepsList, DataSmart.MayWrite, DataSmart.AfterWrite, DataSmart.SettlesAfter, DataSmart.Coherent, Refs;
    ok := true;
    match w
    case DoSetVar(v, t, parsing) => ok := d.SetVar(v, t, parsing, rk);
    case DoSetFlag(v, f, t) => ok := d.SetVarFlag(v, f, t, rk);
    case DoDelVar(v) => d.DelVar(v, rk);
    case DoDelFlag(v, f) => d.DelVarFlag(v, f, rk);
  }

  /** What is fixed over a run: where it starts, its steps, and why they are covered. */
  ghost predicate Along(d: DataSmart, s: Store, overridevars: set<Name>, steps: seq<Step>, rks: seq<Name -> nat>, i: nat)
    reads d, d.dict, d.Repr
  {
    && i <= |steps| && Covered(s, overridevars, steps, rks)
    && d.Valid() && overridevars <= d.overridevars && d.Contents() == After(s, steps[..i])
  }

  /** OVERRIDES settles before every step so far, and after it. */
  ghost predicate SettlesUpTo(s: Store, steps: seq<Step>, k: nat)
    requires Sound(s.index) && k <= |steps| && forall i :: 0 <= i < |steps| && steps[i].Writing? ==> Allowed(steps[i].w)
  {
    forall i: nat :: i <= k ==> Settled(After(s, steps[..i])).Some?
  }

  /** The obligations of one write of a covered run. */
  lemma OneWrite(d: DataSmart, s: Store, overridevars: set<Name>, steps: seq<Step>, rks: seq<Name -> nat>, i: nat)
    requires i < |steps| && Covered(s, overridevars, steps, rks) && Along(d, s, overridevars, steps, rks, i) && steps[i].Writing?
    ensures MayPerform(d, steps[i].w, rks[i])
    ensures d.Sane() && After(s, steps[..i + 1]) == d.AfterWrite(steps[i].w)
  {
    hide Settle, Apply, Ranked, Unread, Settled, DataSmart.Core, DataSmart.Flow, DataSmart.Coherent, Fits, Sound;
    var now, w := After(s, steps[..i]), steps[i].w;
    d.ValidParts();
    d.CoreParts(now, d.rank);
    SettledIs(now, d.rank);
    assert Fine(now, steps[i], overridevars, rks[i]);
    assert steps[..i + 1][..i] == steps[..i];
    assert Allowed(w);
    ApplySoundIff(now, ListAt(now), w);
  }

  /** The write is covered, and the list will be right after it. */
  ghost predicate MayPerform(d: DataSmart, w: Write, rk: Name -> nat)
    reads d, d.dict, d.Repr
  {
    d.Sane() && d.MayWrite(w, rk) && (d.KeepsList(Aim(w)) || Drops(w, d.overridevars))
  }

  /** If it fails, OVERRIDES does not settle before it, or after it. */
  lemma WhyItFails(d: DataSmart, w: Write, rk: Name -> nat)
    requires d.Valid() && d.MayWrite(w, rk)
    ensures Sound(d.Contents().index) && Sound(d.AfterWrite(w).index)
    ensures d.InForce().None? ==> Settled(d.Contents()).None?
    ensures !d.SettlesAfter(w, rk) ==> Settled(d.AfterWrite(w)).None?
  {
    hide Settle, Apply, Ranked, Unread, Settled, DataSmart.Core, DataSmart.Flow, DataSmart.Coherent, Sound;
    d.ValidParts();
    d.CoreParts(d.Contents(), d.rank);
    SettledIs(d.Contents(), d.rank);
    ApplySoundIff(d.Contents(), d.OverrideList(), w);
    SettledIs(d.AfterWrite(w), rk);
  }

  method OneStep(d: DataSmart, ghost s: Store, ghost overridevars: set<Name>, steps: seq<Step>, ghost rks: seq<Name -> nat>, i: nat)
    returns (ok: bool, value: Option<Text>)
    requires i < |steps| && Along(d, s, overridevars, steps, rks, i)
    modifies d, d.dict, d.dict.own
    ensures fresh(d.Repr - old(d.Repr)) && fresh(d.dict.own - old(d.dict.own))
    ensures Covered(s, overridevars, steps, rks)
    ensures !ok ==> Settled(After(s, steps[..i])).None? || Settled(After(s, steps[..i + 1])).None?
    ensures ok ==> Along(d, s, overridevars, steps, rks, i + 1)
    ensures ok && !steps[i].Writing? ==> Right(After(s, steps[..i]), steps[i], value)
  {
    hide Settle, Apply, DataSmart.Flow, DataSmart.Coherent, DataSmart.Shape, Ranked, Settled, Fine, DataSmart.MayWrite, DataSmart.KeepsList,
      DataSmart.AfterWrite, DataSmart.SettlesAfter, Right, Drops, DataSmart.Core;
    assert steps[..i + 1][..i] == steps[..i];
    match steps[i] {
      case Writing(w) =>
        OneWrite(d, s, overridevars, steps, rks, i);
        WhyItFails(d, w, rks[i]);
        ok := Perform(d, w, rks[i]);
        value := None;
      case _ =>
        ok, value := OneRead(d, steps[i], overridevars, rks[i]);
    }
  }

  method OneRead(d: DataSmart, step: Step, ghost overridevars: set<Name>, ghost rk: Name -> nat) returns (ok: bool, value: Option<Text>)
    requires d.Valid() && !step.Writing? && Sound(d.Contents().index) && Fine(d.Contents(), step, overridevars, rk)
    modifies d
    ensures !ok ==> Settled(old(d.Contents())).None?
    ensures ok ==> d.Valid() && d.Contents() == old(d.Contents()) && Right(d.Contents(), step, value)
    ensures d.Repr == old(d.Repr) && d.overridevars == old(d.overridevars)
  {
    hide Settle, DataSmart.Flow, DataSmart.Coherent, DataSmart.Shape, DataSmart.Core, Ranked, Value, FlagParseOf, RawIn, Sound, Settled, ModeMatters;
    d.ValidParts();
    d.CoreParts(d.Contents(), d.rank);
    SettledIs(d.Contents(), d.rank);
    match step {
      case Reading(n) => ok, value := d.ReadVar(n);
      case ReadingFlag(n, f) =>
        if f == Content {
          ok, value := d.ReadVar(n);
        } else {
          ok, value := d.ReadFlag(n, f);
        }
      case ReadingUnexpanded(n, noweakdefault, parsing) => ok, value := d.ReadUnexpanded(n, noweakdefault, parsing);
      case ReadingAs(n, noweakdefault, parsing) => ok, value := OneReadAs(d, n, noweakdefault, parsing);
    }
    if ok {
      AnyRanking(d.Contents(), d.rank, step, value);
    }
  }

  /** An expanding read whose mode does not matter. */
  method OneReadAs(d: DataSmart, n: Name, noweakdefault: bool, parsing: bool) returns (ok: bool, value: Option<Text>)
    requires d.Valid() && Sound(d.Contents().index) && Ranked(d.Contents(), d.rank)
    requires forall o :: !ModeMatters(d.Contents(), o, d.rank, n, noweakdefault, parsing)
    modifies d`overrides, d`overridesset, d`inoverride, d`expandCache
    ensures !ok ==> old(d.InForce()).None?
    ensures ok ==> d.Valid() && d.Contents() == old(d.Contents()) && d.rank == old(d.rank)
    ensures ok ==> Sound(d.Contents().index) && Ranked(d.Contents(), d.rank)
                   && forall o :: Possible(Settle(d.Contents(), d.rank), o) ==> value == Value(d.Contents(), o, d.rank, n)
  {
    hide Settle, DataSmart.Flow, DataSmart.Coherent, DataSmart.Shape, DataSmart.Core, Ranked, Value, RawIn, Sound, ModeMatters, ParseIn, ParseOf;
    ghost var s, rank := d.Contents(), d.rank;
    forall o ensures ParseIn(s, o, rank, n, noweakdefault, parsing).value == Value(s, o, rank, n) {
      RecordSameIff(s, o, rank, n, noweakdefault, parsing);
      ValueOfParse(s, o, rank, n);
    }
    ok, value := d.ReadAs(n, noweakdefault, parsing);
  }

  ghost predicate AllSeparate(others: set<DataSmart>, d: DataSmart)
    reads others, d, d.dict
  {
    forall a :: a in others ==> Separate(a, d)
  }

  lemma AnyRanking(s: Store, rank: Name -> nat, step: Step, value: Option<Text>)
    requires Sound(s.index) && Ranked(s, rank) && !step.Writing?
    requires forall o :: Possible(Settled(s), o) ==> value == Expected(s, o, rank, step)
    ensures Right(s, step, value)
  {
    hide Ranked, FlagParseOf, Value, RawIn, Expand, Settled;
    forall rk: Name -> nat, o | Ranked(s, rk) && Possible(Settled(s), o) ensures value == Expected(s, o, rk, step) {
      if !step.Writing? {
        RankingIrrelevant(s, o, rank, rk, step.n);
        ValueOfParse(s, o, rank, step.n);
        ValueOfParse(s, o, rk, step.n);
      }
    }
  }

  lemma ValueOfParse(s: Store, o: seq<string>, rank: Name -> nat, n: Name)
    requires Sound(s.index) && Ranked(s, rank)
    ensures Value(s, o, rank, n) == ParseOf(s, o, rank, n).value
  {
    hide Value, Expand, Raw;
  }

  // ---- whole runs ----

  /**
   * Any interleaving of reads and writes on d, with writes of variables that OVERRIDES is known to read, after
   * which the override list is another. Every read, cached or not, gives what evaluation without a cache
   * gives for the writes so far, under the list that settles at that moment. Afterwards the invariant holds, with
   * a coherent cache, and the contents are the writes applied in order. Every other datastore whose objects
   * d may not write keeps its contents, its override list and its cache.
   */
  method RunSteps(d: DataSmart, steps: seq<Step>, ghost rks: seq<Name -> nat>, ghost others: set<DataSmart>)
    returns (ok: bool, values: seq<Option<Text>>)
    requires d.Valid() && Covered(d.Contents(), d.overridevars, steps, rks)
    requires AllSeparate(others, d) && forall a :: a in others ==> a.Sane()
    modifies d, d.dict, d.dict.own
    ensures Covered(old(d.Contents()), old(d.overridevars), steps, rks)
    ensures !ok ==> !SettlesUpTo(old(d.Contents()), steps, |steps|)
    ensures ok ==> d.Valid() && d.Contents() == After(old(d.Contents()), steps)
    ensures ok ==> |values| == |steps| && AllRight(old(d.Contents()), steps, values)
    ensures fresh(d.Repr - old(d.Repr)) && fresh(d.dict.own - old(d.dict.own)) && AllSeparate(others, d)
    ensures forall a :: a in others ==>
              a.Sane() && a.Contents() == old(a.Contents()) && a.rank == old(a.rank)
              && a.overrides == old(a.overrides) && a.expandCache == old(a.expandCache)
  {
    hide Along, AllRight, Right, DataSmart.Valid, DataSmart.Sane, After, Settled, Sound, Fine, SettlesUpTo;
    ghost var s, vars := d.Contents(), d.overridevars;
    AlongStarts(d, steps, rks);
    ok, values := true, [];
    NothingRead(s, steps);
    for i := 0 to |steps|
      invariant |values| == i && AllRight(s, steps, values)
      invariant ok && Along(d, s, vars, steps, rks, i)
      invariant fresh(d.Repr - old(d.Repr)) && fresh(d.dict.own - old(d.dict.own)) && AllSeparate(others, d)
      invariant forall a :: a in others ==>
                  a.Sane() && a.Contents() == old(a.Contents()) && a.rank == old(a.rank)
                  && a.overrides == old(a.overrides) && a.expandCache == old(a.expandCache)
    {
      var value;
      ok, value := OneStep(d, s, vars, steps, rks, i);
      if !ok {
        FailsAt(s, steps, i);
        return;
      }
      OneMoreRight(s, steps, values, value);
      values := values + [value];
    }
    AlongGives(d, s, vars, steps, rks);
  }

  lemma FailsAt(s: Store, steps: seq<Step>, i: nat)
    requires Sound(s.index) && i < |steps| && forall j :: 0 <= j < |steps| && steps[j].Writing? ==> Allowed(steps[j].w)
    requires Settled(After(s, steps[..i])).None? || Settled(After(s, steps[..i + 1])).None?
    ensures !SettlesUpTo(s, steps, |steps|)
  {
    hide After, Settled, Allowed;
    assert i <= |steps| && i + 1 <= |steps|;
  }

  /** The values of the reads so far. */
  ghost predicate AllRight(s: Store, steps: seq<Step>, values: seq<Option<Text>>) {
    && |values| <= |steps| && Sound(s.index)
    && (forall j :: 0 <= j < |steps| && steps[j].Writing? ==> Allowed(steps[j].w))
    && forall i :: 0 <= i < |values| && !steps[i].Writing? ==> Right(After(s, steps[..i]), steps[i], values[i])
  }

  lemma OneMoreRight(s: Store, steps: seq<Step>, values: seq<Option<Text>>, value: Option<Text>)
    requires AllRight(s, steps, values) && |values| < |steps|
    requires var i := |values|; !steps[i].Writing? ==> Right(After(s, steps[..i]), steps[i], value)
    ensures AllRight(s, steps, values + [value])
  {
    hide After, Right, Allowed, Sound;
  }

  lemma NothingRead(s: Store, steps: seq<Step>)
    requires Sound(s.index) && forall j :: 0 <= j < |steps| && steps[j].Writing? ==> Allowed(steps[j].w)
    ensures AllRight(s, steps, [])
  {
  }

  lemma AlongGives(d: DataSmart, s: Store, vars: set<Name>, steps: seq<Step>, rks: seq<Name -> nat>)
    requires Along(d, s, vars, steps, rks, |steps|)
    ensures Sound(s.index) && (forall i :: 0 <= i < |steps| && steps[i].Writing? ==> Allowed(steps[i].w))
    ensures d.Valid() && d.Contents() == After(s, steps)
  {
    assert steps[..|steps|] == steps;
  }

  lemma AlongStarts(d: DataSmart, steps: seq<Step>, rks: seq<Name -> nat>)
    requires d.Valid() && Covered(d.Contents(), d.overridevars, steps, rks)
    ensures Along(d, d.Contents(), d.overridevars, steps, rks, 0)
  {
    assert steps[..0] == [];
  }

  /**
   * The same for a fresh copy: however long the chain of copies behind it is, nothing done to the copy
   * shows in its source or in any other datastore that existed before.
   */
  method RunOnCopy(source: DataSmart, ancestors: set<DataSmart>, steps: seq<Step>, ghost rks: seq<Name -> nat>)
    returns (c: DataSmart, ok: bool, values: seq<Option<Text>>)
    requires source in ancestors && forall a :: a in ancestors ==> a.Sane()
    requires Covered(source.Contents(), source.overridevars, steps, rks)
    ensures fresh(c)
    ensures Covered(old(source.Contents()), old(source.overridevars), steps, rks)
    ensures !ok ==> !SettlesUpTo(old(source.Contents()), steps, |steps|)
    ensures ok ==> c.Valid() && c.Contents() == After(old(source.Contents()), steps)
    ensures ok ==> |values| == |steps| && AllRight(old(source.Contents()), steps, values)
    ensures forall a :: a in ancestors ==>
              a.Sane() && a.Contents() == old(a.Contents()) && a.rank == old(a.rank)
              && a.overrides == old(a.overrides) && a.expandCache == old(a.expandCache)
  {
    hide After, Settled, Sound, Ranked, DataSmart.Shape, DataSmart.Coherent, DataSmart.Flow, Fine, SettlesUpTo, AllRight;
    c := source.CreateCopy();
    assert AllSeparate(ancestors, c);
    ok, values := RunSteps(c, steps, rks, ancestors);
  }

  /** A fresh copy reads the same as its source, whatever is read and whether OVERRIDES settles or not. */
  method ReadBoth(source: DataSmart, step: Step) returns (ok: bool, v: Option<Text>, w: Option<Text>)
    requires source.Valid() && !step.Writing? && !step.ReadingAs?
    modifies source
    ensures ok ==> v == w && source.Valid() && source.Contents() == old(source.Contents())
    ensures !ok ==> Settle(old(source.Contents()), old(source.rank)).None?
  {
    hide Settle, DataSmart.Coherent, DataSmart.Flow, DataSmart.Shape, Ranked, Right, Settled, Sound;
    v, w := None, None;
    source.ValidParts();
    source.CoreParts(source.Contents(), source.rank);
    SettledIs(source.Contents(), source.rank);
    var c := source.CreateCopy();
    ok, v := OneRead(c, step, {}, source.rank);
    if ok {
      ok, w := OneRead(source, step, {}, source.rank);
      if ok {
        OneRight(source.Contents(), old(source.rank), step, v, w);
      }
    }
  }

  /** There is only one right value. */
  lemma OneRight(s: Store, rank: Name -> nat, step: Step, v: Option<Text>, w: Option<Text>)
    requires Right(s, step, v) && Right(s, step, w) && Ranked(s, rank)
    ensures v == w
  {
    hide Expected, Ranked, Settled;
    assert Possible(Settled(s), ListAt(s));
  }

  /**
   * For instance, a variable with a weak default only, read without it: nothing is found, and that is what the
   * cache says from then on, although the variable reads as its weak default.
   */
  method WeakDefaultForgotten() returns (d: DataSmart, ok: bool, value: Option<Text>)
    ensures ok && value == None && !d.Sane() && OfContent(["X"]) in d.expandCache && d.expandCache[OfContent(["X"])].value == None
    ensures Sound(d.Contents().index) && forall o :: Raw(d.Contents(), o, ["X"]) == Some([Ch('a')])
  {
    hide Settle, DataSmart.Core, DataSmart.Shape, DataSmart.Flow, DataSmart.Coherent, ParseIn, ModeMatters, Ranked, Raw, Apply, Closed, Sound;
    var x: Name := ["X"];
    d := new DataSmart();
    ghost var rk := (n: Name) => 0;
    WeakDefaultStore(d.OverrideList(), x, rk);
    ok := d.SetVarFlag(x, DefaultVal, [Ch('a')], rk);
    ok, value := d.ReadAs(x, true, false);
    ghost var o := if d.overrides.Some? then d.overrides.value else [];
    assert Possible(d.overrides, o);
  }

  /** The store that this makes. */
  lemma WeakDefaultStore(o: seq<string>, x: Name, rk: Name -> nat)
    requires x == ["X"] && rk == ((n: Name) => 0)
    ensures var s0, w := Store(map[], map[]), DoSetFlag(x, DefaultVal, [Ch('a')]);
            && Fits(w) && Aim(w) == x && x !in {["OVERRIDES"], ["FILE"]} && Sound(s0.index)
            && var s := Apply(s0, o, w);
               && Sound(s.index) && Ranked(s, rk) && Settle(s, rk).Some?
               && forall o' :: Raw(s, o', x) == Some([Ch('a')]) && ModeMatters(s, o', rk, x, true, false)
                               && ParseIn(s, o', rk, x, true, false).value == None
  {
    var s0, t := Store(map[], map[]), [Ch('a')];
    var s := Apply(s0, o, DoSetFlag(x, DefaultVal, t));
    assert FlagsAt(s, x) == Flags(map[DefaultVal := t], map[]);
    assert forall n :: n != x ==> FlagsAt(s, n) == NO_FLAGS;
    assert forall y :: Ref(y) !in t;
    assert OVERRIDES[0] != x[0] && ["FILE"][0] != x[0];
    forall o' ensures Raw(s, o', x) == Some(t) && RawIn(s, o', x, true, false) == None && OverrideText(s, o', x) == None {
      assert EntriesAt(s, x) == [];
      RawIs(s, o', x, false);
      RawIs(s, o', x, true);
    }
    UnsetSettles(s, rk);
  }

  lemma UnsetSettles(s: Store, rk: Name -> nat)
    requires Sound(s.index) && Ranked(s, rk) && FlagsAt(s, OVERRIDES) == NO_FLAGS && EntriesAt(s, OVERRIDES) == []
    ensures Settle(s, rk) == Some(SplitValue(None)) == Some([""])
  {
    hide Settle;
    forall o ensures Next(s, rk, o) == SplitValue(None) {
      RawIs(s, o, OVERRIDES, false);
    }
    ConstantSettles(s, rk, SplitValue(None));
  }

  // ---- what OVERRIDES is known to read ----

  /** Variables that hold these texts and nothing else. */
  function Holding(texts: map<Name, Text>): Store {
    Store(map n | n in texts :: Flags(map[Content := texts[n]], map[]), map[])
  }

  lemma {:induction false} SetOnHolding(texts: map<Name, Text>, o: seq<string>, v: Name, t: Text)
    requires |v| == 1
    ensures Apply(Holding(texts), o, DoSetVar(v, t, false)) == Holding(texts[v := t])
    ensures Fits(DoSetVar(v, t, false)) && Aim(DoSetVar(v, t, false)) == v && KeywordAt(v, 1).None?
  {
    var s := Holding(texts);
    var r := SetVar(s, o, v, t, false);
    assert KeywordAt(v, 1).None?;
    assert Apply(s, o, DoSetVar(v, t, false)) == r;
    ShapeOfSet(s, o, v, t);
    HeldFlags(texts, v, t);
    NoneOverridden(texts, o, v);
    hide Apply, SetVar, Overridden, Holding;
    PlainSetReads(s, o, v, t);
    SameHolding(texts, v, t, r);
  }

  lemma HeldFlags(texts: map<Name, Text>, v: Name, t: Text)
    ensures Flags(FlagsAt(Holding(texts), v).text[Content := t], map[]) == Flags(map[Content := t], map[])
  {
  }

  lemma NoneOverridden(texts: map<Name, Text>, o: seq<string>, v: Name)
    ensures forall n :: !Overridden(Holding(texts), o, v, n)
  {
    assert EntriesAt(Holding(texts), v) == [];
  }

  lemma SameHolding(texts: map<Name, Text>, v: Name, t: Text, r: Store)
    requires r.index == map[] && r.vars.Keys == Holding(texts).vars.Keys + {v} && FlagsAt(r, v) == Flags(map[Content := t], map[])
    requires forall n :: n != v ==> FlagsAt(r, n) == FlagsAt(Holding(texts), n)
    ensures r == Holding(texts[v := t])
  {
    forall n | n in r.vars ensures r.vars[n] == Holding(texts[v := t]).vars[n] {
      assert r.vars[n] == FlagsAt(r, n);
    }
    assert r.vars == Holding(texts[v := t]).vars;
  }

  lemma ShapeOfSet(s: Store, o: seq<string>, v: Name, t: Text)
    requires s.index == map[] && |v| == 1 && KeywordAt(v, 1).None?
    ensures var r := SetVar(s, o, v, t, false); r.index == map[] && r.vars.Keys == s.vars.Keys + {v}
  {
  }

  lemma HoldingRanked(texts: map<Name, Text>, rk: Name -> nat)
    requires forall n, x :: n in texts && Ref(x) in texts[n] ==> rk(x) < rk(n)
    ensures Sound(Holding(texts).index) && Ranked(Holding(texts), rk)
  {
    var s := Holding(texts);
    assert forall n :: EntriesAt(s, n) == [];
    forall n, t | HasText(s, n, t) ensures n in texts && t == texts[n] {
      assert forall k :: OpsAt(s, n, k) == [];
    }
  }

  lemma HoldingValue(texts: map<Name, Text>, o: seq<string>, rk: Name -> nat, n: Name)
    requires Sound(Holding(texts).index) && Ranked(Holding(texts), rk) && n in texts
    ensures Value(Holding(texts), o, rk, n) == Some(Expand(Holding(texts), o, rk, texts[n]))
  {
    var s := Holding(texts);
    assert EntriesAt(s, n) == [] && OpsAt(s, n, Append) == [] && OpsAt(s, n, Prepend) == [] && OpsAt(s, n, Remove) == [];
    RawIs(s, o, n, false);
  }

  /**
   * A variable that OVERRIDES reads through another one is not recorded: after B = t1, A = "${B}" and
   * OVERRIDES = "${A}" the override list is t1, split at colons. A later write B = t2 leaves it in force, and it is
   * right then exactly if t2 splits into the same list.
   */
  method IndirectInputMissed(t1: Text, t2: Text) returns (d: DataSmart, ok: bool)
    requires !HasRef(t1) && !HasRef(t2)
    ensures ok && d.Sane() && ["A"] in d.overridevars && ["B"] !in d.overridevars
    ensures d.Contents() == Holding(map[["B"] := t2, ["A"] := [Ref(["B"])], OVERRIDES := [Ref(["A"])]])
    ensures d.overrides == Some(Split(Render(t1))) && Settle(d.Contents(), d.rank) == Some(Split(Render(t2)))
    ensures d.Valid() <==> Split(Render(t1)) == Split(Render(t2))
  {
    hide Settle, DataSmart.Core, DataSmart.Shape, DataSmart.Flow, DataSmart.Coherent, Ranked, Apply, Closed, Sound, Value, Holding, Fits,
      Aim, Expand, Refs, Split, Render, SomewhereUnset, Chain;
    var a: Name, b: Name := ["A"], ["B"];
    assert OVERRIDES[0] != a[0] && OVERRIDES[0] != b[0];
    ghost var rk := (n: Name) => if n == OVERRIDES then 2 else if n == a then 1 else 0;
    d := ReadsThroughA(t1, rk);
    ChainSettles(t1, rk);
    ChainSettles(t2, rk);
    ok := d.SettleList();
    ChainPut(t1, t2);
    Put(d, Chain(t1), b, t2, rk);
  }

  /**
   * Nor does the deletion of OVERRIDES itself drop the list: it is right afterwards exactly if it was that of an
   * empty value.
   */
  method DeletionMissed(t: Text) returns (d: DataSmart, ok: bool)
    requires !HasRef(t)
    ensures ok && d.Sane() && OVERRIDES in d.overridevars
    ensures d.overrides == Some(Split(Render(t))) && Settle(d.Contents(), d.rank) == Some([""])
    ensures d.Valid() <==> Split(Render(t)) == [""]
  {
    hide Settle, DataSmart.Core, DataSmart.Shape, DataSmart.Flow, DataSmart.Coherent, Ranked, Apply, Closed, Sound, Value, Holding, Fits,
      Aim, Expand, Refs, Split, Render, SomewhereUnset;
    var a: Name, b: Name := ["A"], ["B"];
    assert OVERRIDES[0] != a[0] && OVERRIDES[0] != b[0];
    ghost var rk := (n: Name) => if n == OVERRIDES then 2 else if n == a then 1 else 0;
    d := ReadsThroughA(t, rk);
    ChainSettles(t, rk);
    ok := d.SettleList();
    DeletedSettles(t, d.OverrideList(), rk);
    d.DelVar(OVERRIDES, rk);
  }

  lemma DeletedSettles(t: Text, o: seq<string>, rk: Name -> nat)
    requires Sound(Holding(Chain(t)).index) && Ranked(Holding(Chain(t)), rk)
    ensures var w := DoDelVar(OVERRIDES);
            && Fits(w) && Aim(w) == OVERRIDES
            && var s := Apply(Holding(Chain(t)), o, w);
               Sound(s.index) && Ranked(s, rk) && Settle(s, rk) == Some([""])
  {
    hide Settle;
    var s0 := Holding(Chain(t));
    var s := Apply(s0, o, DoDelVar(OVERRIDES));
    assert s.index == map[];
    forall n, x | HasText(s, n, x) ensures HasText(s0, n, x) {
      assert n != OVERRIDES;
      assert FlagsAt(s, n) == FlagsAt(s0, n);
      assert forall k :: OpsAt(s, n, k) == OpsAt(s0, n, k);
    }
    UnsetSettles(s, rk);
  }

  /** A plain write of a variable that is not recorded, where none has definitions by override. */
  method Put(d: DataSmart, ghost texts: map<Name, Text>, v: Name, t: Text, ghost rk: Name -> nat)
    requires d.Sane() && d.Contents() == Holding(texts) && |v| == 1 && v !in d.overridevars
    requires Sound(Holding(texts[v := t]).index) && Ranked(Holding(texts[v := t]), rk)
    modifies d, d.dict, d.dict.own
    ensures fresh(d.Repr - old(d.Repr)) && fresh(d.dict.own - old(d.dict.own))
    ensures d.Sane() && d.rank == rk && d.Contents() == Holding(texts[v := t]) && d.ListKept(old(d.overrides), old(d.overridevars))
  {
    hide Settle, DataSmart.Core, DataSmart.Shape, DataSmart.Flow, DataSmart.Coherent, Ranked, Apply, Sound, Holding, Fits, Aim, DataSmart.ListKept;
    SetOnHolding(texts, d.OverrideList(), v, t);
    IndexOfHolding(texts);
    var ok := d.SetVar(v, t, false, rk);
  }

  /** B = t, A = "${B}" and OVERRIDES = "${A}". */
  function Chain(t: Text): map<Name, Text> {
    map[["B"] := t, ["A"] := [Ref(["B"])], OVERRIDES := [Ref(["A"])]]
  }

  lemma ChainPut(t1: Text, t2: Text)
    ensures Chain(t1)[["B"] := t2] == Chain(t2) == map[["B"] := t2, ["A"] := [Ref(["B"])], OVERRIDES := [Ref(["A"])]]
  {
    assert ["B"][0] != OVERRIDES[0];
  }

  /** These three writes, in a new datastore. */
  method ReadsThroughA(t: Text, ghost rk: Name -> nat) returns (d: DataSmart)
    requires !HasRef(t) && rk(["B"]) < rk(["A"]) < rk(OVERRIDES)
    ensures fresh(d) && fresh(d.dict) && fresh(d.dict.own) && d.Valid() && d.overrides == None && d.rank == rk
    ensures d.Contents() == Holding(Chain(t)) && OVERRIDES in d.overridevars && ["A"] in d.overridevars && ["B"] !in d.overridevars
  {
    hide Settle, DataSmart.Core, DataSmart.Shape, DataSmart.Flow, DataSmart.Coherent, Ranked, Apply, Sound, Value, Holding, Fits, Aim,
      SomewhereUnset, HasRef;
    var a: Name, b: Name := ["A"], ["B"];
    assert a[0] != b[0] && OVERRIDES[0] != a[0] && OVERRIDES[0] != b[0] && ["FILE"][0] != a[0] && ["FILE"][0] != b[0];
    ghost var t1: map<Name, Text> := map[b := t];
    ghost var t2 := map[b := t, a := [Ref(b)]];
    assert map[][b := t] == t1 && t1[a := [Ref(b)]] == t2 && t2[OVERRIDES := [Ref(a)]] == Chain(t);
    StepsRanked(t, rk);
    EmptyHolding();
    d := new DataSmart();
    Put(d, map[], b, t, rk);
    Put(d, t1, a, [Ref(b)], rk);
    PutRecorded(d, t2, OVERRIDES, [Ref(a)], rk);
    HoldingSet(Chain(t), rk, b);
    assert a in Refs([Ref(a)]) && b !in Refs([Ref(a)]) by {
      assert [Ref(a)][0] == Ref(a);
    }
  }

  /** A plain write of a variable that is recorded, where none has definitions by override. */
  method PutRecorded(d: DataSmart, ghost texts: map<Name, Text>, v: Name, t: Text, ghost rk: Name -> nat)
    requires d.Sane() && d.Contents() == Holding(texts) && |v| == 1 && v in d.overridevars
    requires Sound(Holding(texts[v := t]).index) && Ranked(Holding(texts[v := t]), rk) && Settle(Holding(texts[v := t]), rk).Some?
    modifies d, d.dict, d.dict.own
    ensures fresh(d.Repr - old(d.Repr)) && fresh(d.dict.own - old(d.dict.own))
    ensures d.Sane() && d.rank == rk && d.Contents() == Holding(texts[v := t]) && d.ListDropped(old(d.overridevars), t)
  {
    hide Settle, DataSmart.Core, DataSmart.Shape, DataSmart.Flow, DataSmart.Coherent, Ranked, Apply, Sound, Holding, Fits, Aim,
      DataSmart.ListDropped;
    SetOnHolding(texts, d.OverrideList(), v, t);
    IndexOfHolding(texts);
    var ok := d.SetVar(v, t, false, rk);
  }

  lemma StepsRanked(t: Text, rk: Name -> nat)
    requires !HasRef(t) && rk(["B"]) < rk(["A"]) < rk(OVERRIDES)
    ensures var t1: map<Name, Text> := map[["B"] := t];
            Sound(Holding(t1).index) && Ranked(Holding(t1), rk)
    ensures var t2: map<Name, Text> := map[["B"] := t, ["A"] := [Ref(["B"])]];
            Sound(Holding(t2).index) && Ranked(Holding(t2), rk)
    ensures Sound(Holding(Chain(t)).index) && Ranked(Holding(Chain(t)), rk) && Settle(Holding(Chain(t)), rk).Some?
  {
    hide Holding, Ranked, Sound, Settle;
    assert forall x :: Ref(x) !in t;
    HoldingRanked(map[["B"] := t], rk);
    HoldingRanked(map[["B"] := t, ["A"] := [Ref(["B"])]], rk);
    ChainSettles(t, rk);
  }

  lemma EmptyHolding()
    ensures Holding(map[]) == Store(map[], map[])
  {
  }

  lemma IndexOfHolding(texts: map<Name, Text>)
    ensures Holding(texts).index == map[]
  {
  }

  lemma HoldingSet(texts: map<Name, Text>, rk: Name -> nat, n: Name)
    requires Sound(Holding(texts).index) && Ranked(Holding(texts), rk) && n in texts
    ensures !SomewhereUnset(Holding(texts), rk, n)
  {
    hide Value, Holding;
    forall o ensures Value(Holding(texts), o, rk, n) != None {
      HoldingValue(texts, o, rk, n);
    }
  }

  lemma ChainSettles(t: Text, rk: Name -> nat)
    requires !HasRef(t) && rk(["B"]) < rk(["A"]) < rk(OVERRIDES)
    ensures var s := Holding(Chain(t));
            Sound(s.index) && Ranked(s, rk) && Settle(s, rk) == Some(Split(Render(t)))
  {
    hide Settle, Ranked, Value, Expand, Holding, Split, Render;
    var a: Name, b: Name := ["A"], ["B"];
    assert a[0] != b[0] && OVERRIDES[0] != a[0] && OVERRIDES[0] != b[0] && forall x :: Ref(x) !in t;
    var texts := Chain(t);
    HoldingRanked(texts, rk);
    forall o ensures Next(Holding(texts), rk, o) == Split(Render(t)) {
      ThroughA(texts, o, rk, a, b);
    }
    ConstantSettles(Holding(texts), rk, Split(Render(t)));
  }

  lemma ThroughA(texts: map<Name, Text>, o: seq<string>, rk: Name -> nat, a: Name, b: Name)
    requires Sound(Holding(texts).index) && Ranked(Holding(texts), rk)
    requires a in texts && b in texts && OVERRIDES in texts
    requires texts[OVERRIDES] == [Ref(a)] && texts[a] == [Ref(b)] && !HasRef(texts[b])
    ensures Value(Holding(texts), o, rk, OVERRIDES) == Some(texts[b])
  {
    var s := Holding(texts);
    hide Holding, Ranked;
    HoldingValue(texts, o, rk, b);
    HoldingValue(texts, o, rk, a);
    HoldingValue(texts, o, rk, OVERRIDES);
    WithoutRefs(s, o, rk, texts[b]);
    assert [] + [Ref(b)] == [Ref(b)] && [] + [Ref(a)] == [Ref(a)] && [] + texts[b] == texts[b];
    ExpandOne(s, o, rk, [], Ref(b));
    ExpandOne(s, o, rk, [], Ref(a));
    assert Expand(s, o, rk, []) == [];
  }

  // ---- the override list in force, in characters ----

  /** After a plain setVar of OVERRIDES to l, joined with colons, l is the list in force. */
  method OverridesAsWritten(d: DataSmart, l: seq<string>, ghost rk: Name -> nat) returns (ok: bool)
    requires d.Sane() && OVERRIDES in d.overridevars && l != [] && forall c, i :: c in l && 0 <= i < |c| ==> c[i] != ':'
    requires d.MayWrite(DoSetVar(OVERRIDES, Chars(Join(l)), false), rk)
    modifies d, d.dict, d.dict.own
    ensures ok && d.Valid() && d.overrides == Some(l)
  {
    hide DataSmart.Core, DataSmart.Flow, DataSmart.Coherent, Settle, Ranked, Join, SetVar, Fits;
    ghost var s, o := d.Contents(), d.OverrideList();
    SaneIsSound(d);
    ListSettles(s, o, rk, l);
    ok := PutOverrides(d, Chars(Join(l)), l, rk);
  }

  /** If OVERRIDES refers to an unset variable, the reference stands in the list as it was written, at its place. */
  method UnsetAsWritten(d: DataSmart, a: string, n: Name, b: string, l: seq<string>, ghost rk: Name -> nat) returns (ok: bool)
    requires d.Sane() && OVERRIDES in d.overridevars && l != [] && forall c, i :: c in l && 0 <= i < |c| ==> c[i] != ':'
    requires Join(l) == a + ("${" + Join(n) + "}") + b
    requires d.MayWrite(DoSetVar(OVERRIDES, Around(a, n, b), false), rk)
    requires var s' := d.AfterWrite(DoSetVar(OVERRIDES, Around(a, n, b), false));
             Sound(s'.index) && Ranked(s', rk) && forall o' :: Value(s', o', rk, n) == None
    modifies d, d.dict, d.dict.own
    ensures ok && d.Valid() && d.overrides == Some(l)
  {
    hide DataSmart.Core, DataSmart.Flow, DataSmart.Coherent, Settle, Ranked, Join, SetVar, Fits, Value;
    ghost var s, o := d.Contents(), d.OverrideList();
    SaneIsSound(d);
    UnsetStands(s, o, rk, a, n, b, l);
    ok := PutOverrides(d, Around(a, n, b), l, rk);
  }

  lemma SaneIsSound(d: DataSmart)
    requires d.Sane()
    ensures Sound(d.Contents().index) && Ranked(d.Contents(), d.rank)
  {
  }

  method PutOverrides(d: DataSmart, t: Text, ghost l: seq<string>, ghost rk: Name -> nat) returns (ok: bool)
    requires d.Sane() && OVERRIDES in d.overridevars && d.MayWrite(DoSetVar(OVERRIDES, t, false), rk)
    requires var s' := d.AfterWrite(DoSetVar(OVERRIDES, t, false)); Sound(s'.index) && Ranked(s', rk) && Settle(s', rk) == Some(l)
    modifies d, d.dict, d.dict.own
    ensures ok && d.Valid() && d.overrides == Some(l)
  {
    hide DataSmart.Core, DataSmart.Flow, DataSmart.Coherent, Settle, Ranked, Apply, Refs, SomewhereUnset, Unread;
    InputsAreRead(d, t, rk);
    ok := d.SetVar(OVERRIDES, t, false, rk);
    ok := d.SettleList();
  }

  /** OVERRIDES reaches itself, so the write does not settle the list in its middle. */
  lemma InputsAreRead(d: DataSmart, t: Text, rk: Name -> nat)
    requires d.Sane() && d.MayWrite(DoSetVar(OVERRIDES, t, false), rk)
    ensures !d.NeedsList(DoSetVar(OVERRIDES, t, false)) && Aim(DoSetVar(OVERRIDES, t, false)) == OVERRIDES
  {
    assert OVERRIDES <= OVERRIDES;
  }
}
