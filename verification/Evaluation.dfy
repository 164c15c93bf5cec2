// What a read of the datastore means: evaluation with no cache, as functions of the store and of the
// list of active overrides.
module Evaluation {
  import opened PyStrings
  import opened Options
  import opened DataTypes
  import opened OverrideIndex
  import opened OverrideChoice

  // ---- unexpanded reads ----

  /** Does `[value, override]` apply? An empty override always does. */
  predicate Applies(op: Op, overrides: seq<string>) {
    op.add == [] || op.add == [""] || forall c :: c in op.add ==> c in overrides
  }

  function OrEmpty(v: Option<Text>): Text {
    if v.Some? then v.value else []
  }

  /** The `:append` loop: each operation that applies goes behind the value. */
  function Appended(v: Option<Text>, ops: seq<Op>, overrides: seq<string>): Option<Text> {
    if ops == [] then v
    else
      var front := Appended(v, ops[..|ops| - 1], overrides);
      var op := ops[|ops| - 1];
      if Applies(op, overrides) then Some(OrEmpty(front) + op.text) else front
  }

  /** The `:prepend` loop: each operation that applies goes before the value. */
  function Prepended(v: Option<Text>, ops: seq<Op>, overrides: seq<string>): Option<Text> {
    if ops == [] then v
    else
      var front := Prepended(v, ops[..|ops| - 1], overrides);
      var op := ops[|ops| - 1];
      if Applies(op, overrides) then Some(op.text + OrEmpty(front)) else front
  }

  /** The value kept under the name itself: `_content`, or else the weak default. */
  function Own(s: Store, n: Name, noweakdefault: bool): Option<Text> {
    var text := FlagsAt(s, n).text;
    if Content in text then Some(text[Content])
    else if DefaultVal in text && !noweakdefault then Some(text[DefaultVal])
    else None
  }

  lemma ChoiceIsEntry(cands: seq<Entry>, overrides: seq<string>)
    ensures var r := Choose(cands, overrides);
            r.Some? ==> exists e :: e in cands && e.r == r.value && Active(e.o, overrides)
  {
    var d := ActiveDict(cands, overrides);
    ActiveDictFrom(cands, overrides);
    ResolveAmong(d, None, overrides, set k | k in d.vals :: d.vals[k]);
    var r := Choose(cands, overrides);
    if r.Some? {
      var k :| k in d.vals && d.vals[k] == r.value;
    }
  }

  /** The definition chosen for n, if n has override-qualified definitions. */
  ghost function Chosen(s: Store, o: seq<string>, n: Name): (r: Option<Name>)
    ensures r.Some? ==> exists e :: e in EntriesAt(s, n) && e.r == r.value
  {
    ChoiceIsEntry(EntriesAt(s, n), o);
    Choose(EntriesAt(s, n), o)
  }

  ghost function AtLeastAsLong(s: Store, n: Name): set<Name> {
    set k | k in s.index && |k| >= |n|
  }

  /** `getVar(n, expand=False, noweakdefault, parsing)` under the overrides o. */
  ghost function RawIn(s: Store, o: seq<string>, n: Name, noweakdefault: bool, parsing: bool): Option<Text>
    requires Sound(s.index)
    decreases AtLeastAsLong(s, n)
  {
    if parsing then Own(s, n, noweakdefault)
    else
      var chosen := Chosen(s, o, n);
      var over :=
        if chosen.None? then None
        else
          assert n in s.index && SoundList(n, s.index[n]);
          assert n in AtLeastAsLong(s, n) && n !in AtLeastAsLong(s, chosen.value);
          assert AtLeastAsLong(s, chosen.value) <= AtLeastAsLong(s, n);
          RawIn(s, o, chosen.value, false, false);
      Finish(s, o, n, over, noweakdefault)
  }

  /** The chosen definition's text, or else the variable's own, with the operations applied. */
  function Finish(s: Store, o: seq<string>, n: Name, over: Option<Text>, noweakdefault: bool): Option<Text> {
    var base := if over.Some? then over else Own(s, n, noweakdefault);
    Prepended(Appended(base, OpsAt(s, n, Append), o), OpsAt(s, n, Prepend), o)
  }

  ghost function Raw(s: Store, o: seq<string>, n: Name): Option<Text>
    requires Sound(s.index)
  {
    RawIn(s, o, n, false, false)
  }

  /** The text of the override-qualified definition that is chosen for n. */
  ghost function OverrideText(s: Store, o: seq<string>, n: Name): Option<Text>
    requires Sound(s.index)
  {
    var chosen := Chosen(s, o, n);
    if chosen.None? then None else Raw(s, o, chosen.value)
  }

  lemma RawIs(s: Store, o: seq<string>, n: Name, noweakdefault: bool)
    requires Sound(s.index)
    ensures RawIn(s, o, n, noweakdefault, false) == Finish(s, o, n, OverrideText(s, o, n), noweakdefault)
  {
  }

  lemma ParsingRaw(s: Store, o: seq<string>, n: Name, noweakdefault: bool)
    requires Sound(s.index)
    ensures RawIn(s, o, n, noweakdefault, true) == Own(s, n, noweakdefault)
  {
  }

  // ---- acyclic references ----

  /** The texts that evaluating n can put into its value or its removals. */
  ghost predicate HasText(s: Store, n: Name, t: Text) {
    || (exists f :: f in FlagsAt(s, n).text && (f == Content || f == DefaultVal) && t == FlagsAt(s, n).text[f])
    || (exists k, i :: 0 <= i < |OpsAt(s, n, k)| && t == OpsAt(s, n, k)[i].text)
  }

  /** Every reference and every override-qualified definition leads to a name of lower rank. */
  ghost predicate Ranked(s: Store, rank: Name -> nat) {
    (forall n, t, x :: HasText(s, n, t) && Ref(x) in t ==> rank(x) < rank(n)) &&
    (forall n, e :: e in EntriesAt(s, n) ==> rank(e.r) < rank(n))
  }

  ghost predicate Below(t: Text, rank: Name -> nat, bound: nat) {
    forall x :: Ref(x) in t ==> rank(x) < bound
  }

  lemma {:induction false} AppendedBelow(v: Option<Text>, ops: seq<Op>, o: seq<string>, rank: Name -> nat, bound: nat)
    requires v.Some? ==> Below(v.value, rank, bound)
    requires forall i :: 0 <= i < |ops| ==> Below(ops[i].text, rank, bound)
    ensures Appended(v, ops, o).Some? ==> Below(Appended(v, ops, o).value, rank, bound)
    ensures Prepended(v, ops, o).Some? ==> Below(Prepended(v, ops, o).value, rank, bound)
  {
    if ops != [] {
      AppendedBelow(v, ops[..|ops| - 1], o, rank, bound);
    }
  }

  lemma {:induction false} RawBelow(s: Store, o: seq<string>, rank: Name -> nat, n: Name, noweakdefault: bool, parsing: bool)
    requires Sound(s.index) && Ranked(s, rank)
    ensures var r := RawIn(s, o, n, noweakdefault, parsing); r.Some? ==> Below(r.value, rank, rank(n))
    decreases rank(n)
  {
    var chosen := if parsing then None else Chosen(s, o, n);
    if chosen.Some? {
      RawBelow(s, o, rank, chosen.value, false, false);
    }
    var over := if chosen.None? then None else RawIn(s, o, chosen.value, false, false);
    var base := if over.Some? then over else Own(s, n, noweakdefault);
    assert base.Some? ==> Below(base.value, rank, rank(n)) by {
      if over.None? && base.Some? {
        assert HasText(s, n, base.value);
      }
    }
    OpsBelow(s, rank, n, Append);
    OpsBelow(s, rank, n, Prepend);
    AppendedBelow(base, OpsAt(s, n, Append), o, rank, rank(n));
    AppendedBelow(Appended(base, OpsAt(s, n, Append), o), OpsAt(s, n, Prepend), o, rank, rank(n));
  }

  lemma OpsBelow(s: Store, rank: Name -> nat, n: Name, k: Keyword)
    requires Ranked(s, rank)
    ensures forall i :: 0 <= i < |OpsAt(s, n, k)| ==> Below(OpsAt(s, n, k)[i].text, rank, rank(n))
  {
    forall i | 0 <= i < |OpsAt(s, n, k)| ensures Below(OpsAt(s, n, k)[i].text, rank, rank(n)) {
      assert HasText(s, n, OpsAt(s, n, k)[i].text);
    }
  }

  // ---- expansion ----

  ghost function Top(t: Text, rank: Name -> nat): (b: nat)
    ensures Below(t, rank, b)
    ensures forall c: nat :: Below(t, rank, c) ==> b <= c
  {
    if t == [] then 0
    else
      var b := Top(t[1..], rank);
      assert forall c: nat :: Below(t, rank, c) ==> Below(t[1..], rank, c);
      assert forall x :: Ref(x) in t ==> Ref(x) == t[0] || Ref(x) in t[1..];
      if t[0].Ref? && rank(t[0].n) >= b then rank(t[0].n) + 1 else b
  }

  lemma TopRest(t: Text, rank: Name -> nat)
    requires t != []
    ensures Top(t[1..], rank) <= Top(t, rank)
    ensures t[0].Ref? ==> rank(t[0].n) < Top(t, rank)
  {
    assert Below(t[1..], rank, Top(t, rank));
  }

  /** White space, for `str.split()` and for `\s` in a regular expression. */
  predicate IsWhite(c: char) {
    var n := c as int;
    9 <= n <= 13 || 28 <= n <= 32 || n == 0x85 || n == 0xA0 || n == 0x1680 || 0x2000 <= n <= 0x200A
    || n == 0x2028 || n == 0x2029 || n == 0x202F || n == 0x205F || n == 0x3000
  }

  predicate IsSpace(tok: Tok) {
    tok.Ch? && IsWhite(tok.c)
  }

  /** The length of the run of non-space tokens at the start of t. */
  function Run(t: Text): (k: nat)
    ensures k <= |t|
    ensures forall i :: 0 <= i < k ==> !IsSpace(t[i])
    ensures k < |t| ==> IsSpace(t[k])
  {
    if t == [] || IsSpace(t[0]) then 0 else 1 + Run(t[1..])
  }

  /** `t.split()` */
  function Words(t: Text): seq<Text> {
    if t == [] then []
    else if IsSpace(t[0]) then Words(t[1..])
    else [t[..Run(t)]] + Words(t[Run(t)..])
  }

  /** t without the words in ws; all white space stays. */
  function Strip(t: Text, ws: set<Text>): Text {
    if t == [] then []
    else if IsSpace(t[0]) then [t[0]] + Strip(t[1..], ws)
    else (if t[..Run(t)] in ws then [] else t[..Run(t)]) + Strip(t[Run(t)..], ws)
  }

  /** A parsed value, as kept in `expand_cache`. */
  datatype Parse = Parse(unexpanded: Option<Text>, value: Option<Text>, references: set<Name>)

  function Refs(t: Text): set<Name> {
    set tok | tok in t && tok.Ref? :: tok.n
  }

  /** Substituting every reference in t once; a reference to an unset variable stays as it is. */
  ghost function Expand(s: Store, o: seq<string>, rank: Name -> nat, t: Text): Text
    requires Sound(s.index) && Ranked(s, rank)
    decreases Top(t, rank), 0, |t|
  {
    if t == [] then []
    else
      TopRest(t, rank);
      var head := if t[0].Ref? then Value(s, o, rank, t[0].n) else None;
      (if head.Some? then head.value else [t[0]]) + Expand(s, o, rank, t[1..])
  }

  ghost function RemovedBy(s: Store, o: seq<string>, rank: Name -> nat, n: Name, ops: seq<Op>): set<Text>
    requires Sound(s.index) && Ranked(s, rank)
    requires forall i :: 0 <= i < |ops| ==> Below(ops[i].text, rank, rank(n))
    decreases rank(n), 1, |ops|
  {
    if ops == [] then {}
    else
      var op := ops[|ops| - 1];
      RemovedBy(s, o, rank, n, ops[..|ops| - 1]) +
      if Applies(op, o) then SeqSet(Words(Expand(s, o, rank, op.text))) else {}
  }

  /** `getVar(n)` under the overrides o, evaluated with an empty cache. */
  ghost function Value(s: Store, o: seq<string>, rank: Name -> nat, n: Name): Option<Text>
    requires Sound(s.index) && Ranked(s, rank)
    decreases rank(n), 3, 0
  {
    RawBelow(s, o, rank, n, false, false);
    var raw := Raw(s, o, n);
    if raw.None? then None
    else
      OpsBelow(s, rank, n, Remove);
      var t := Expand(s, o, rank, raw.value);
      Some(if OpsAt(s, n, Remove) == [] then t else Strip(t, RemovedBy(s, o, rank, n, OpsAt(s, n, Remove))))
  }

  /** The record that evaluating n leaves in the cache. */
  ghost function ParseOf(s: Store, o: seq<string>, rank: Name -> nat, n: Name): Parse
    requires Sound(s.index) && Ranked(s, rank)
  {
    var raw := Raw(s, o, n);
    Parse(raw, Value(s, o, rank, n),
          if raw.None? then {} else Refs(raw.value) + Refs(Expand(s, o, rank, raw.value)))
  }

  /** The record for a flag other than `_content`, whose text is expanded and nothing else. */
  ghost function FlagParseOf(s: Store, o: seq<string>, rank: Name -> nat, n: Name, f: Flag): Parse
    requires Sound(s.index) && Ranked(s, rank)
  {
    var text := FlagsAt(s, n).text;
    if f !in text then Parse(None, None, {})
    else
      var t := Expand(s, o, rank, text[f]);
      Parse(Some(text[f]), Some(t), Refs(text[f]) + Refs(t))
  }

  // ---- expansion is idempotent ----

  lemma {:induction false} ExpandAppend(s: Store, o: seq<string>, rank: Name -> nat, a: Text, b: Text)
    requires Sound(s.index) && Ranked(s, rank)
    ensures Expand(s, o, rank, a + b) == Expand(s, o, rank, a) + Expand(s, o, rank, b)
  {
    if a == [] {
      assert a + b == b;
    } else {
      assert (a + b)[1..] == a[1..] + b;
      ExpandAppend(s, o, rank, a[1..], b);
    }
  }

  /** Every reference left in t is to an unset variable. */
  ghost predicate Settled(s: Store, o: seq<string>, rank: Name -> nat, t: Text)
    requires Sound(s.index) && Ranked(s, rank)
  {
    forall x :: Ref(x) in t ==> Value(s, o, rank, x).None?
  }

  lemma {:induction false} StripTokens(t: Text, ws: set<Text>)
    ensures forall tok :: tok in Strip(t, ws) ==> tok in t
    decreases |t|
  {
    if t != [] {
      if IsSpace(t[0]) {
        StripTokens(t[1..], ws);
      } else {
        StripTokens(t[Run(t)..], ws);
      }
    }
  }

  /** Expansion leaves only references to unset variables, and none of a higher rank. */
  lemma {:induction false} ExpandSettles(s: Store, o: seq<string>, rank: Name -> nat, t: Text)
    requires Sound(s.index) && Ranked(s, rank)
    ensures Settled(s, o, rank, Expand(s, o, rank, t))
    ensures Below(Expand(s, o, rank, t), rank, Top(t, rank))
    decreases Top(t, rank), 0, |t|
  {
    if t != [] {
      TopRest(t, rank);
      ExpandSettles(s, o, rank, t[1..]);
      var head := if t[0].Ref? then Value(s, o, rank, t[0].n) else None;
      if head.Some? {
        ValueSettles(s, o, rank, t[0].n);
      }
      var h, rest := (if head.Some? then head.value else [t[0]]), Expand(s, o, rank, t[1..]);
      assert Settled(s, o, rank, h) && Below(h, rank, Top(t, rank));
      assert Expand(s, o, rank, t) == h + rest;
    }
  }

  lemma {:induction false} ValueSettles(s: Store, o: seq<string>, rank: Name -> nat, n: Name)
    requires Sound(s.index) && Ranked(s, rank)
    ensures var v := Value(s, o, rank, n);
            v.Some? ==> Settled(s, o, rank, v.value) && Below(v.value, rank, rank(n))
    decreases rank(n), 3, 0
  {
    RawBelow(s, o, rank, n, false, false);
    var raw := Raw(s, o, n);
    if raw.Some? {
      ExpandSettles(s, o, rank, raw.value);
      var t := Expand(s, o, rank, raw.value);
      OpsBelow(s, rank, n, Remove);
      StripTokens(t, RemovedBy(s, o, rank, n, OpsAt(s, n, Remove)));
    }
  }

  /** A settled text expands to itself. */
  lemma {:induction false} SettledStays(s: Store, o: seq<string>, rank: Name -> nat, t: Text)
    requires Sound(s.index) && Ranked(s, rank)
    requires Settled(s, o, rank, t)
    ensures Expand(s, o, rank, t) == t
  {
    if t != [] {
      SettledStays(s, o, rank, t[1..]);
      assert t == [t[0]] + t[1..];
      assert t[0].Ref? ==> Ref(t[0].n) in t;
    }
  }

  /** Expanding twice is expanding once. */
  lemma ExpandIdempotent(s: Store, o: seq<string>, rank: Name -> nat, t: Text)
    requires Sound(s.index) && Ranked(s, rank)
    ensures Expand(s, o, rank, Expand(s, o, rank, t)) == Expand(s, o, rank, t)
  {
    ExpandSettles(s, o, rank, t);
    SettledStays(s, o, rank, Expand(s, o, rank, t));
  }

  // ---- removal takes out exactly the named words ----

  lemma {:induction false} StripNothing(t: Text)
    ensures Strip(t, {}) == t
    decreases |t|
  {
    if t != [] {
      if IsSpace(t[0]) {
        StripNothing(t[1..]);
      } else {
        StripNothing(t[Run(t)..]);
      }
    }
  }

  function FilterOut(words: seq<Text>, ws: set<Text>): seq<Text> {
    if words == [] then []
    else (if words[0] in ws then [] else [words[0]]) + FilterOut(words[1..], ws)
  }

  function Spaces(t: Text): Text {
    if t == [] then []
    else (if IsSpace(t[0]) then [t[0]] else []) + Spaces(t[1..])
  }

  lemma {:induction false} WordsAfterRun(w: Text, t: Text)
    requires w != [] && (forall i :: 0 <= i < |w| ==> !IsSpace(w[i]))
    requires t == [] || IsSpace(t[0])
    ensures Run(w + t) == |w|
    ensures Words(w + t) == [w] + Words(t)
  {
    RunAfter(w, t);
    assert (w + t)[..|w|] == w && (w + t)[|w|..] == t;
  }

  lemma {:induction false} RunAfter(w: Text, t: Text)
    requires forall i :: 0 <= i < |w| ==> !IsSpace(w[i])
    requires t == [] || IsSpace(t[0])
    ensures Run(w + t) == |w|
  {
    if w == [] {
      assert w + t == t;
    } else {
      assert (w + t)[1..] == w[1..] + t;
      RunAfter(w[1..], t);
    }
  }

  lemma {:induction false} SpacesAppend(a: Text, b: Text)
    ensures Spaces(a + b) == Spaces(a) + Spaces(b)
  {
    if a == [] {
      assert a + b == b;
    } else {
      hide IsSpace;
      assert (a + b)[1..] == a[1..] + b && (a + b)[0] == a[0];
      SpacesAppend(a[1..], b);
    }
  }

  lemma {:induction false} NoSpaces(w: Text)
    requires forall i :: 0 <= i < |w| ==> !IsSpace(w[i])
    ensures Spaces(w) == []
  {
    if w != [] {
      NoSpaces(w[1..]);
    }
  }

  /** Stripping drops the named words, keeps every other word in order and all the white space. */
  lemma {:induction false} StripExact(t: Text, ws: set<Text>)
    ensures Words(Strip(t, ws)) == FilterOut(Words(t), ws)
    ensures Spaces(Strip(t, ws)) == Spaces(t)
    ensures t == [] || IsSpace(t[0]) ==> Strip(t, ws) == [] || IsSpace(Strip(t, ws)[0])
    decreases |t|
  {
    hide IsSpace;
    if t != [] {
      if IsSpace(t[0]) {
        StripExact(t[1..], ws);
        assert ([t[0]] + Strip(t[1..], ws))[1..] == Strip(t[1..], ws);
      } else {
        var w, rest := t[..Run(t)], t[Run(t)..];
        StripExact(rest, ws);
        assert t == w + rest && Words(t) == [w] + Words(rest);
        assert Strip(t, ws) == (if w in ws then [] else w) + Strip(rest, ws);
        StripWord(w, rest, ws);
      }
    }
  }

  lemma {:induction false} StripWord(w: Text, rest: Text, ws: set<Text>)
    requires w != [] && (forall i :: 0 <= i < |w| ==> !IsSpace(w[i]))
    requires rest == [] || IsSpace(rest[0])
    requires var s := Strip(rest, ws);
             Words(s) == FilterOut(Words(rest), ws) && Spaces(s) == Spaces(rest) && (s == [] || IsSpace(s[0]))
    ensures var s := (if w in ws then [] else w) + Strip(rest, ws);
            Words(s) == FilterOut([w] + Words(rest), ws) && Spaces(s) == Spaces(w + rest)
  {
    hide IsSpace, Strip, Spaces, Words;
    SpacesAppend(w, rest);
    NoSpaces(w);
    assert ([w] + Words(rest))[1..] == Words(rest);
    if w in ws {
      assert [] + Strip(rest, ws) == Strip(rest, ws) && [] + Spaces(rest) == Spaces(rest);
    } else {
      WordsAfterRun(w, Strip(rest, ws));
      SpacesAppend(w, Strip(rest, ws));
    }
  }

  // ---- a read depends only on what it can reach ----

  ghost predicate Closed(s: Store, dom: iset<Name>) {
    (forall n, e :: n in dom && e in EntriesAt(s, n) ==> e.r in dom) &&
    (forall n, t, x :: n in dom && HasText(s, n, t) && Ref(x) in t ==> x in dom)
  }

  ghost predicate AgreeOn(s: Store, s': Store, dom: iset<Name>) {
    forall n :: n in dom ==> FlagsAt(s, n) == FlagsAt(s', n) && EntriesAt(s, n) == EntriesAt(s', n)
  }

  ghost predicate Within(t: Text, dom: iset<Name>) {
    forall x :: Ref(x) in t ==> x in dom
  }

  lemma {:induction false} AppendedWithin(v: Option<Text>, ops: seq<Op>, o: seq<string>, dom: iset<Name>)
    requires v.Some? ==> Within(v.value, dom)
    requires forall i :: 0 <= i < |ops| ==> Within(ops[i].text, dom)
    ensures Appended(v, ops, o).Some? ==> Within(Appended(v, ops, o).value, dom)
    ensures Prepended(v, ops, o).Some? ==> Within(Prepended(v, ops, o).value, dom)
  {
    if ops != [] {
      AppendedWithin(v, ops[..|ops| - 1], o, dom);
    }
  }

  lemma OpsWithin(s: Store, dom: iset<Name>, n: Name, k: Keyword)
    requires Closed(s, dom) && n in dom
    ensures forall i :: 0 <= i < |OpsAt(s, n, k)| ==> Within(OpsAt(s, n, k)[i].text, dom)
  {
    forall i | 0 <= i < |OpsAt(s, n, k)| ensures Within(OpsAt(s, n, k)[i].text, dom) {
      assert HasText(s, n, OpsAt(s, n, k)[i].text);
    }
  }

  lemma {:induction false} RawFrame(s: Store, s': Store, o: seq<string>, dom: iset<Name>, n: Name, noweakdefault: bool, parsing: bool)
    requires Sound(s.index) && Sound(s'.index) && Closed(s, dom) && AgreeOn(s, s', dom) && n in dom
    ensures RawIn(s, o, n, noweakdefault, parsing) == RawIn(s', o, n, noweakdefault, parsing)
    ensures var r := RawIn(s, o, n, noweakdefault, parsing); r.Some? ==> Within(r.value, dom)
    decreases AtLeastAsLong(s, n)
  {
    hide Choose, Appended, Prepended;
    var chosen := if parsing then None else Chosen(s, o, n);
    if chosen.Some? {
      assert n in s.index && SoundList(n, s.index[n]);
      assert n in AtLeastAsLong(s, n) && n !in AtLeastAsLong(s, chosen.value);
      assert AtLeastAsLong(s, chosen.value) <= AtLeastAsLong(s, n);
      RawFrame(s, s', o, dom, chosen.value, false, false);
    }
    var over := if chosen.None? then None else RawIn(s, o, chosen.value, false, false);
    var base := if over.Some? then over else Own(s, n, noweakdefault);
    assert base.Some? ==> Within(base.value, dom) by {
      if over.None? && base.Some? {
        assert HasText(s, n, base.value);
      }
    }
    OpsWithin(s, dom, n, Append);
    OpsWithin(s, dom, n, Prepend);
    AppendedWithin(base, OpsAt(s, n, Append), o, dom);
    AppendedWithin(Appended(base, OpsAt(s, n, Append), o), OpsAt(s, n, Prepend), o, dom);
  }

  lemma {:induction false} ExpandFrame(s: Store, s': Store, o: seq<string>, rank: Name -> nat, rank': Name -> nat, dom: iset<Name>, t: Text)
    requires Sound(s.index) && Sound(s'.index) && Ranked(s, rank) && Ranked(s', rank')
    requires Closed(s, dom) && AgreeOn(s, s', dom) && Within(t, dom)
    ensures Expand(s, o, rank, t) == Expand(s', o, rank', t)
    decreases Top(t, rank), 0, |t|
  {
    if t != [] {
      TopRest(t, rank);
      assert Within(t[1..], dom);
      ExpandFrame(s, s', o, rank, rank', dom, t[1..]);
      if t[0].Ref? {
        assert Ref(t[0].n) in t;
        ValueFrame(s, s', o, rank, rank', dom, t[0].n);
      }
    }
  }

  lemma {:induction false} RemovedFrame(s: Store, s': Store, o: seq<string>, rank: Name -> nat, rank': Name -> nat, dom: iset<Name>, n: Name, ops: seq<Op>)
    requires Sound(s.index) && Sound(s'.index) && Ranked(s, rank) && Ranked(s', rank')
    requires Closed(s, dom) && AgreeOn(s, s', dom)
    requires forall i :: 0 <= i < |ops| ==> Below(ops[i].text, rank, rank(n)) && Below(ops[i].text, rank', rank'(n)) && Within(ops[i].text, dom)
    ensures RemovedBy(s, o, rank, n, ops) == RemovedBy(s', o, rank', n, ops)
    decreases rank(n), 1, |ops|
  {
    if ops != [] {
      RemovedFrame(s, s', o, rank, rank', dom, n, ops[..|ops| - 1]);
      ExpandFrame(s, s', o, rank, rank', dom, ops[|ops| - 1].text);
    }
  }

  /** Two stores that agree on everything n can reach give n the same value. */
  lemma {:induction false} ValueFrame(s: Store, s': Store, o: seq<string>, rank: Name -> nat, rank': Name -> nat, dom: iset<Name>, n: Name)
    requires Sound(s.index) && Sound(s'.index) && Ranked(s, rank) && Ranked(s', rank')
    requires Closed(s, dom) && AgreeOn(s, s', dom) && n in dom
    ensures Value(s, o, rank, n) == Value(s', o, rank', n)
    decreases rank(n), 3, 0
  {
    RawFrame(s, s', o, dom, n, false, false);
    RawBelow(s, o, rank, n, false, false);
    OpsBelow(s, rank, n, Remove);
    OpsBelow(s', rank', n, Remove);
    OpsWithin(s, dom, n, Remove);
    assert OpsAt(s', n, Remove) == OpsAt(s, n, Remove);
    RemovedFrame(s, s', o, rank, rank', dom, n, OpsAt(s, n, Remove));
    var raw := Raw(s, o, n);
    if raw.Some? {
      ExpandFrame(s, s', o, rank, rank', dom, raw.value);
    }
  }

  lemma ParseFrame(s: Store, s': Store, o: seq<string>, rank: Name -> nat, rank': Name -> nat, dom: iset<Name>, n: Name)
    requires Sound(s.index) && Sound(s'.index) && Ranked(s, rank) && Ranked(s', rank')
    requires Closed(s, dom) && AgreeOn(s, s', dom) && n in dom
    ensures ParseOf(s, o, rank, n) == ParseOf(s', o, rank', n)
  {
    RawFrame(s, s', o, dom, n, false, false);
    ValueFrame(s, s', o, rank, rank', dom, n);
    var raw := Raw(s, o, n);
    if raw.Some? {
      ExpandFrame(s, s', o, rank, rank', dom, raw.value);
    }
  }

  /** The value does not depend on the ranking that shows the references to be acyclic. */
  lemma RankingIrrelevant(s: Store, o: seq<string>, rank: Name -> nat, rank': Name -> nat, n: Name)
    requires Sound(s.index) && Ranked(s, rank) && Ranked(s, rank')
    ensures ParseOf(s, o, rank, n) == ParseOf(s, o, rank', n)
    ensures forall f :: FlagParseOf(s, o, rank, n, f) == FlagParseOf(s, o, rank', n, f)
  {
    var everything := iset m: Name | |m| >= 0;
    ParseFrame(s, s, o, rank, rank', everything, n);
    forall f | f in FlagsAt(s, n).text
      ensures Expand(s, o, rank, FlagsAt(s, n).text[f]) == Expand(s, o, rank', FlagsAt(s, n).text[f])
    {
      ExpandFrame(s, s, o, rank, rank', everything, FlagsAt(s, n).text[f]);
    }
  }

  /** What is left after expansion is still within dom. */
  lemma {:induction false} ExpandWithin(s: Store, o: seq<string>, rank: Name -> nat, dom: iset<Name>, t: Text)
    requires Sound(s.index) && Ranked(s, rank) && Closed(s, dom) && Within(t, dom)
    ensures Within(Expand(s, o, rank, t), dom)
    decreases Top(t, rank), 0, |t|
  {
    if t != [] {
      TopRest(t, rank);
      assert Within(t[1..], dom);
      ExpandWithin(s, o, rank, dom, t[1..]);
      assert t[0].Ref? ==> Ref(t[0].n) in t;
      var head := if t[0].Ref? then Value(s, o, rank, t[0].n) else None;
      if head.Some? {
        ValueWithin(s, o, rank, dom, t[0].n);
      }
      var h, rest := (if head.Some? then head.value else [t[0]]), Expand(s, o, rank, t[1..]);
      assert Within(h, dom);
      assert Expand(s, o, rank, t) == h + rest;
    }
  }

  lemma {:induction false} ValueWithin(s: Store, o: seq<string>, rank: Name -> nat, dom: iset<Name>, n: Name)
    requires Sound(s.index) && Ranked(s, rank) && Closed(s, dom) && n in dom
    ensures Value(s, o, rank, n).Some? ==> Within(Value(s, o, rank, n).value, dom)
    decreases rank(n), 3, 0
  {
    RawBelow(s, o, rank, n, false, false);
    RawFrame(s, s, o, dom, n, false, false);
    var raw := Raw(s, o, n);
    if raw.Some? {
      ExpandWithin(s, o, rank, dom, raw.value);
      OpsBelow(s, rank, n, Remove);
      StripTokens(Expand(s, o, rank, raw.value), RemovedBy(s, o, rank, n, OpsAt(s, n, Remove)));
    }
  }

  lemma ExpandOne(s: Store, o: seq<string>, rank: Name -> nat, t: Text, tok: Tok)
    requires Sound(s.index) && Ranked(s, rank)
    ensures Expand(s, o, rank, t + [tok]) ==
            Expand(s, o, rank, t) +
            if tok.Ref? && Value(s, o, rank, tok.n).Some? then Value(s, o, rank, tok.n).value else [tok]
  {
    ExpandAppend(s, o, rank, t, [tok]);
    assert [tok][1..] == [];
    assert Expand(s, o, rank, []) == [];
    var head := if tok.Ref? then Value(s, o, rank, tok.n) else None;
    assert Expand(s, o, rank, [tok]) == (if head.Some? then head.value else [tok]) + [];
  }

  lemma RefsOne(t: Text, tok: Tok)
    ensures Refs(t + [tok]) == Refs(t) + if tok.Ref? then {tok.n} else {}
  {
  }

  predicate HasRef(t: Text) {
    exists i :: 0 <= i < |t| && t[i].Ref?
  }

  lemma WithoutRefs(s: Store, o: seq<string>, rank: Name -> nat, t: Text)
    requires Sound(s.index) && Ranked(s, rank) && !HasRef(t)
    ensures Expand(s, o, rank, t) == t && Refs(t) == {}
  {
    forall x ensures Ref(x) !in t {
    }
    SettledStays(s, o, rank, t);
  }

  /** The facts that the second round of expansion needs about the first. */
  lemma ExpandAgain(s: Store, o: seq<string>, rank: Name -> nat, dom: iset<Name>, t: Text)
    requires Sound(s.index) && Ranked(s, rank) && Closed(s, dom) && Within(t, dom)
    ensures var e := Expand(s, o, rank, t);
            Within(e, dom) && Top(e, rank) <= Top(t, rank) && Expand(s, o, rank, e) == e
  {
    ExpandSettles(s, o, rank, t);
    ExpandIdempotent(s, o, rank, t);
    ExpandWithin(s, o, rank, dom, t);
  }

  lemma RemovedOne(s: Store, o: seq<string>, rank: Name -> nat, n: Name, ops: seq<Op>, op: Op)
    requires Sound(s.index) && Ranked(s, rank)
    requires forall i :: 0 <= i < |ops| ==> Below(ops[i].text, rank, rank(n))
    requires Below(op.text, rank, rank(n))
    ensures RemovedBy(s, o, rank, n, ops + [op]) ==
            RemovedBy(s, o, rank, n, ops) + if Applies(op, o) then SeqSet(Words(Expand(s, o, rank, op.text))) else {}
  {
    assert (ops + [op])[..|ops|] == ops;
  }

  /** How the cached record is put together, in the order of getVarFlag. */
  lemma ParseOfIs(s: Store, o: seq<string>, rank: Name -> nat, n: Name, raw: Option<Text>, t: Text)
    requires Sound(s.index) && Ranked(s, rank) && raw == Raw(s, o, n)
    requires raw.Some? ==> t == Expand(s, o, rank, raw.value)
    ensures raw.None? ==> ParseOf(s, o, rank, n) == Parse(None, None, {})
    ensures raw.Some? ==>
              Below(raw.value, rank, rank(n)) && (forall i :: 0 <= i < |OpsAt(s, n, Remove)| ==> Below(OpsAt(s, n, Remove)[i].text, rank, rank(n)))
              && ParseOf(s, o, rank, n) ==
                   Parse(raw, Some(Strip(t, RemovedBy(s, o, rank, n, OpsAt(s, n, Remove)))), Refs(raw.value) + Refs(t))
    ensures raw.Some? && (OpsAt(s, n, Remove) == [] || t == []) ==>
              ParseOf(s, o, rank, n) == Parse(raw, Some(t), Refs(raw.value) + Refs(t))
  {
    RawBelow(s, o, rank, n, false, false);
    OpsBelow(s, rank, n, Remove);
    StripNothing(t);
  }
}
