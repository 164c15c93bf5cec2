// How getVarFlag picks, among the override-qualified definitions of a variable, the one to use.
module OverrideChoice {
  import opened PyStrings
  import opened PyDicts
  import opened Options
  import opened DataTypes

  /** The loop state: candidates still in play by (partly consumed) key, the choice so far, `mod`. */
  datatype Choice = Choice(active: Dict<Name>, match_: Option<Name>, mod: bool)

  // ---- the loops of getVarFlag, as functions ----

  /** One visit of key a under override o. */
  function Visit(st: Choice, a: string, o: string): (r: Choice)
    requires st.active.Valid() && a in st.active.vals
    ensures r.active.Valid()
    ensures TotalLength(r.active.keys) <= TotalLength(st.active.keys)
    ensures r.mod && !st.mod ==> TotalLength(r.active.keys) < TotalLength(st.active.keys)
    ensures st.mod ==> r.mod
    ensures forall k :: k in st.active.vals && k != a ==> k in r.active.vals
  {
    var def := st.active.vals[a];
    if EndsWith(a, ":" + o) then
      EraseShortens(a, ":" + o);
      Choice(st.active.Del(a).Put(Erase(a, ":" + o), def), st.match_, true)
    else if a == o then
      Choice(st.active.Del(a), Some(def), st.mod)
    else st
  }

  /** `for a in active.copy()` */
  function VisitAll(st: Choice, todo: seq<string>, o: string): (r: Choice)
    requires st.active.Valid() && Distinct(todo) && (forall a :: a in todo ==> a in st.active.vals)
    ensures r.active.Valid()
    ensures TotalLength(r.active.keys) <= TotalLength(st.active.keys)
    ensures r.mod && !st.mod ==> TotalLength(r.active.keys) < TotalLength(st.active.keys)
    ensures st.mod ==> r.mod
    decreases |todo|
  {
    if todo == [] then st
    else
      assert forall a :: a in todo[1..] ==> a in todo && a != todo[0];
      VisitAll(Visit(st, todo[0], o), todo[1..], o)
  }

  /** `for o in self.overrides` */
  function Pass(st: Choice, overrides: seq<string>): (r: Choice)
    requires st.active.Valid()
    ensures r.active.Valid()
    ensures TotalLength(r.active.keys) <= TotalLength(st.active.keys)
    ensures r.mod && !st.mod ==> TotalLength(r.active.keys) < TotalLength(st.active.keys)
    ensures st.mod ==> r.mod
    decreases |overrides|
  {
    if overrides == [] then st
    else Pass(VisitAll(st, KeysOf(st.active), overrides[0]), overrides[1..])
  }

  function KeysOf(d: Dict<Name>): (keys: seq<string>)
    requires d.Valid()
    ensures Distinct(keys) && forall a :: a in keys <==> a in d.vals
  {
    assert forall a :: a in d.keys <==> a in SeqSet(d.keys);
    d.keys
  }

  /** `while mod`: repeats while a key was rewritten; each rewrite shortens the keys. */
  function Resolve(active: Dict<Name>, found: Option<Name>, overrides: seq<string>): Option<Name>
    requires active.Valid()
    decreases TotalLength(active.keys)
  {
    var st := Pass(Choice(active, found, false), overrides);
    if st.mod then Resolve(st.active, st.match_, overrides) else st.match_
  }

  /** Is a definition with override part o active? */
  predicate Active(o: seq<string>, overrides: seq<string>) {
    Join(o) in overrides || (|o| > 1 && forall c :: c in o ==> c in overrides)
  }

  function ActiveDict(cands: seq<Entry>, overrides: seq<string>): (d: Dict<Name>)
    ensures d.Valid()
  {
    if cands == [] then Dict([], map[])
    else
      var d := ActiveDict(cands[..|cands| - 1], overrides);
      var e := cands[|cands| - 1];
      if Active(e.o, overrides) then d.Put(Join(e.o), e.r) else d
  }

  /** The definition used for a variable whose override-qualified definitions are cands. */
  function Choose(cands: seq<Entry>, overrides: seq<string>): Option<Name> {
    Resolve(ActiveDict(cands, overrides), None, overrides)
  }

  // ---- the loops as the code runs them ----

  method ComputeActive(cands: seq<Entry>, overrides: seq<string>, overridesset: set<string>)
    returns (active: Dict<Name>)
    requires overridesset == SeqSet(overrides)
    ensures active.Valid() && active == ActiveDict(cands, overrides)
  {
    active := Dict([], map[]);
    for i := 0 to |cands|
      invariant active.Valid() && active == ActiveDict(cands[..i], overrides)
    {
      var e := cands[i];
      assert cands[..i + 1][..i] == cands[..i];
      if Join(e.o) in overridesset {
        active := active.Put(Join(e.o), e.r);
      } else if |e.o| > 1 {
        if forall c :: c in e.o ==> c in overridesset {
          active := active.Put(Join(e.o), e.r);
        }
      }
    }
    assert cands[..|cands|] == cands;
  }

  /** The body of the innermost loop. */
  method VisitKey(st: Choice, a: string, o: string) returns (r: Choice)
    requires st.active.Valid() && a in st.active.vals
    ensures r == Visit(st, a, o)
  {
    hide Erase, EndsWith, TotalLength;
    var active, found, mod := st.active, st.match_, st.mod;
    if EndsWith(a, ":" + o) {
      var t := active.vals[a];
      active := active.Del(a);
      active := active.Put(Erase(a, ":" + o), t);
      mod := true;
    } else if a == o {
      found := Some(active.vals[a]);
      active := active.Del(a);
    }
    r := Choice(active, found, mod);
  }

  /** `for a in active.copy()`, for one override o */
  method VisitKeys(st: Choice, o: string) returns (r: Choice)
    requires st.active.Valid()
    ensures r == VisitAll(st, KeysOf(st.active), o)
  {
    hide Visit, TotalLength, SeqSet, Dict.Valid;
    r := st;
    var todo := KeysOf(st.active);
    for j := 0 to |todo|
      invariant r.active.Valid()
      invariant forall a :: a in todo[j..] ==> a in r.active.vals
      invariant VisitAll(st, todo, o) == VisitAll(r, todo[j..], o)
    {
      assert todo[j..][1..] == todo[j + 1..];
      assert forall b :: b in todo[j + 1..] ==> b in todo[j..] && b != todo[j];
      r := VisitKey(r, todo[j], o);
    }
  }

  method ChooseOverride(cands: seq<Entry>, overrides: seq<string>, overridesset: set<string>)
    returns (found: Option<Name>)
    requires overridesset == SeqSet(overrides)
    ensures found == Choose(cands, overrides)
  {
    hide VisitAll, TotalLength, ActiveDict;
    found := None;
    var active := ComputeActive(cands, overrides, overridesset);
    var mod := true;
    while mod
      invariant active.Valid()
      invariant mod ==> Choose(cands, overrides) == Resolve(active, found, overrides)
      invariant !mod ==> Choose(cands, overrides) == found
      decreases TotalLength(active.keys), mod
    {
      var st := Choice(active, found, false);
      ghost var start := st;
      for i := 0 to |overrides|
        invariant st.active.Valid()
        invariant Pass(start, overrides) == Pass(st, overrides[i..])
      {
        st := VisitKeys(st, overrides[i]);
        assert overrides[i..][1..] == overrides[i + 1..];
      }
      active, found, mod := st.active, st.match_, st.mod;
    }
  }

  // ---- what the loops achieve ----

  ghost predicate Among(st: Choice, defs: set<Name>) {
    (forall k :: k in st.active.vals ==> st.active.vals[k] in defs) &&
    (st.match_.Some? ==> st.match_.value in defs)
  }

  lemma {:induction false} VisitAllAmong(st: Choice, todo: seq<string>, o: string, defs: set<Name>)
    requires st.active.Valid() && Distinct(todo) && (forall a :: a in todo ==> a in st.active.vals)
    requires Among(st, defs)
    ensures Among(VisitAll(st, todo, o), defs)
    decreases |todo|
  {
    if todo != [] {
      assert forall a :: a in todo[1..] ==> a in todo && a != todo[0];
      VisitAllAmong(Visit(st, todo[0], o), todo[1..], o, defs);
    }
  }

  lemma {:induction false} PassAmong(st: Choice, overrides: seq<string>, defs: set<Name>)
    requires st.active.Valid() && Among(st, defs)
    ensures Among(Pass(st, overrides), defs)
    decreases |overrides|
  {
    if overrides != [] {
      VisitAllAmong(st, KeysOf(st.active), overrides[0], defs);
      PassAmong(VisitAll(st, KeysOf(st.active), overrides[0]), overrides[1..], defs);
    }
  }

  lemma {:induction false} ResolveAmong(active: Dict<Name>, found: Option<Name>, overrides: seq<string>, defs: set<Name>)
    requires active.Valid() && Among(Choice(active, found, false), defs)
    ensures var r := Resolve(active, found, overrides); r.Some? ==> r.value in defs
    decreases TotalLength(active.keys)
  {
    var st := Pass(Choice(active, found, false), overrides);
    PassAmong(Choice(active, found, false), overrides, defs);
    if st.mod {
      ResolveAmong(st.active, st.match_, overrides, defs);
    }
  }

  lemma {:induction false} ActiveDictFrom(cands: seq<Entry>, overrides: seq<string>)
    ensures forall k :: k in ActiveDict(cands, overrides).vals ==>
              exists e :: e in cands && Active(e.o, overrides) && k == Join(e.o)
                          && ActiveDict(cands, overrides).vals[k] == e.r
    ensures forall e :: e in cands && Active(e.o, overrides) ==> Join(e.o) in ActiveDict(cands, overrides).vals
  {
    if cands != [] {
      var front, last := cands[..|cands| - 1], cands[|cands| - 1];
      ActiveDictFrom(front, overrides);
      assert cands == front + [last];
      var d := ActiveDict(front, overrides);
      forall k | k in ActiveDict(cands, overrides).vals
        ensures exists e :: e in cands && Active(e.o, overrides) && k == Join(e.o)
                            && ActiveDict(cands, overrides).vals[k] == e.r
      {
        if Active(last.o, overrides) && k == Join(last.o) {
          assert last in cands;
        } else {
          var e :| e in front && Active(e.o, overrides) && k == Join(e.o) && d.vals[k] == e.r;
          assert e in cands;
        }
      }
    }
  }

  /** Whatever is chosen is one of the candidates, and all of its override components are active. */
  lemma ChosenIsActive(cands: seq<Entry>, overrides: seq<string>)
    requires AllColonFree(overrides)
    ensures var r := Choose(cands, overrides);
            r.Some? ==> exists e :: e in cands && e.r == r.value
                                    && forall c :: c in e.o ==> c in overrides
  {
    var d := ActiveDict(cands, overrides);
    ActiveDictFrom(cands, overrides);
    var defs := set k | k in d.vals :: d.vals[k];
    ResolveAmong(d, None, overrides, defs);
    var r := Choose(cands, overrides);
    if r.Some? {
      var k :| k in d.vals && d.vals[k] == r.value;
      var e :| e in cands && Active(e.o, overrides) && k == Join(e.o) && d.vals[k] == e.r;
      JoinedOverride(e.o, overrides);
    }
  }

  /** With colon-free overrides, an active definition has every component active. */
  lemma JoinedOverride(o: seq<string>, overrides: seq<string>)
    requires AllColonFree(overrides) && Active(o, overrides)
    ensures forall c :: c in o ==> c in overrides
  {
    if |o| > 1 {
      assert ':' in Join(o) by { assert Join(o)[|o[0]|] == ':'; }
    }
  }

  // ---- something is always chosen, unless one component hides inside another ----

  /** No component is a proper prefix of another one. */
  ghost predicate PrefixFree(o: seq<string>) {
    forall c, d :: c in o && d in o && StartsWith(d, c) ==> c == d
  }

  function Drop(parts: seq<string>, o: string): (r: seq<string>)
    ensures forall c :: c in r ==> c in parts
  {
    if parts == [] then []
    else if parts[0] == o then Drop(parts[1..], o)
    else [parts[0]] + Drop(parts[1..], o)
  }

  /** The joined form of all components but the first, each with its leading colon. */
  function Tail(parts: seq<string>): string {
    if parts == [] then "" else ":" + parts[0] + Tail(parts[1..])
  }

  lemma {:induction false} JoinTail(parts: seq<string>)
    requires parts != []
    ensures Join(parts) == parts[0] + Tail(parts[1..])
  {
    if |parts| > 1 {
      JoinTail(parts[1..]);
      assert Join(parts) == parts[0] + (":" + (parts[1] + Tail(parts[1..][1..])));
      assert Tail(parts[1..]) == ":" + parts[1] + Tail(parts[1..][1..]);
    } else {
      assert parts[1..] == [];
    }
  }

  lemma {:induction false} EraseBehind(c: string, t: string, o: string)
    requires ColonFree(c)
    ensures Erase(c + t, ":" + o) == c + Erase(t, ":" + o)
  {
    if c == "" {
      assert c + t == t;
    } else {
      assert (c + t)[0] == c[0] != ':';
      assert (c + t)[1..] == c[1..] + t;
      EraseBehind(c[1..], t, o);
    }
  }

  lemma {:induction false} EraseTail(parts: seq<string>, o: string)
    requires AllColonFree(parts) && ColonFree(o)
    requires forall d :: d in parts && StartsWith(d, o) ==> d == o
    ensures Erase(Tail(parts), ":" + o) == Tail(Drop(parts, o))
  {
    hide Erase, StartsWith;
    if parts != [] {
      var head, rest := parts[0], parts[1..];
      var t, p, u := Tail(parts), ":" + o, Tail(rest);
      assert t == ":" + head + u && t[1..] == head + u;
      assert Tail(Drop(parts, o)) == if head == o then Tail(Drop(rest, o)) else ":" + head + Tail(Drop(rest, o));
      assert head in parts && forall d :: d in rest ==> d in parts;
      EraseTail(rest, o);
      hide Tail, Drop;
      EraseStep(t, p);
      if head == o {
        assert t == p + u;
        BeginsWith(p, u);
      } else {
        NotAtHead(head, rest, o);
        EraseBehind(head, u, o);
        assert [t[0]] == ":";
      }
    }
  }

  lemma EraseStep(s: string, p: string)
    requires s != "" && p != ""
    ensures StartsWith(s, p) ==> |p| <= |s| && Erase(s, p) == Erase(s[|p|..], p)
    ensures !StartsWith(s, p) ==> Erase(s, p) == [s[0]] + Erase(s[1..], p)
  {
  }

  lemma BeginsWith(p: string, u: string)
    ensures StartsWith(p + u, p) && (p + u)[|p|..] == u
  {
  }

  lemma NotAtHead(head: string, rest: seq<string>, o: string)
    requires head != o && ColonFree(o) && !StartsWith(head, o)
    ensures !StartsWith(":" + head + Tail(rest), ":" + o)
  {
    var t, p := ":" + head + Tail(rest), ":" + o;
    assert p[1..] == o;
    if |p| <= |t| {
      assert t[..|p|][1..] == t[1..|p|];
      if |o| <= |head| {
        assert t[1..|p|] == head[..|o|];
      } else {
        assert t[1..|p|][|head|] == Tail(rest)[0] == ':';
      }
    }
  }

  /** Erasing one override from a joined key drops exactly the components equal to it. */
  lemma EraseJoin(parts: seq<string>, o: string)
    requires parts != [] && AllColonFree(parts) && ColonFree(o)
    requires forall d :: d in parts && StartsWith(d, o) ==> d == o
    ensures Erase(Join(parts), ":" + o) == Join([parts[0]] + Drop(parts[1..], o))
  {
    JoinTail(parts);
    EraseBehind(parts[0], Tail(parts[1..]), o);
    EraseTail(parts[1..], o);
    JoinTail([parts[0]] + Drop(parts[1..], o));
  }

  lemma {:induction false} TailEnds(parts: seq<string>, o: string)
    requires AllColonFree(parts) && ColonFree(o) && parts != []
    ensures EndsWith(Tail(parts), ":" + o) <==> parts[|parts| - 1] == o
  {
    var head, rest, p := parts[0], Tail(parts[1..]), ":" + o;
    assert Tail(parts) == ":" + (head + rest);
    if |parts| == 1 {
      assert Tail(parts) == ":" + head && head + "" == head;
      if |p| <= |head| {
        EndsWithBehind(":", head, p);
        NotEndsBeyond(head, "", p);
      } else {
        assert Tail(parts)[0..] == Tail(parts) && p[1..] == o && Tail(parts)[1..] == head;
      }
    } else {
      TailEnds(parts[1..], o);
      assert rest[0] == ':';
      if |p| <= |rest| {
        assert Tail(parts) == (":" + head) + rest;
        EndsWithBehind(":" + head, rest, p);
      } else if EndsWith(Tail(parts), p) {
        EndsWithAt(Tail(parts), p, |p| - |rest|);
      }
    }
  }

  lemma JoinEnds(parts: seq<string>, o: string)
    requires AllColonFree(parts) && ColonFree(o) && parts != []
    ensures EndsWith(Join(parts), ":" + o) <==> |parts| > 1 && parts[|parts| - 1] == o
  {
    var p, t := ":" + o, Tail(parts[1..]);
    JoinTail(parts);
    if |p| > |t| {
      NotEndsBeyond(parts[0], t, p);
    } else {
      EndsWithBehind(parts[0], t, p);
    }
    if |parts| > 1 {
      TailEnds(parts[1..], o);
    }
  }

  /** The last component of a joined key, with its colon, is o: the key can be shortened by it. */
  predicate Endable(k: string, o: string) {
    EndsWith(k, ":" + o)
  }

  /** A key that is an override itself, or becomes one when overrides at its end are erased from it. */
  ghost predicate Consumed(k: string, overrides: seq<string>)
    decreases |k|
  {
    k in overrides ||
    exists o :: o in overrides && Endable(k, o) && (EraseShortens(k, ":" + o); Consumed(Erase(k, ":" + o), overrides))
  }

  /** Colon-free endings are determined by the key. */
  lemma OneEnding(k: string, o: string, p: string)
    requires ColonFree(o) && ColonFree(p) && Endable(k, o) && Endable(k, p)
    ensures o == p
  {
    EndingAt(k, o);
    EndingAt(k, p);
    assert |o| == |p|;
    assert o == k[|k| - |o|..] == p;
  }

  lemma EndingAt(k: string, o: string)
    requires ColonFree(o) && Endable(k, o)
    ensures |o| < |k| && k[|k| - |o| - 1] == ':' && forall j :: |k| - |o| <= j < |k| ==> k[j] == o[j - (|k| - |o|)] != ':'
  {
    forall j: nat | j < |":" + o| ensures k[|k| - |o| - 1 + j] == (":" + o)[j] {
      EndsWithAt(k, ":" + o, j);
    }
    assert forall j :: |k| - |o| <= j < |k| ==> k[j] == (":" + o)[j - (|k| - |o|) + 1];
  }

  /** So shortening a key keeps whether it can be consumed. */
  lemma ShortenedConsumed(k: string, o: string, overrides: seq<string>)
    requires AllColonFree(overrides) && o in overrides && Endable(k, o)
    ensures Consumed(k, overrides) <==> Consumed(Erase(k, ":" + o), overrides)
  {
    hide Erase, EndsWith;
    EraseShortens(k, ":" + o) by { assert Endable(k, o); }
    EndableHasColon(k, o);
    if Consumed(k, overrides) {
      var p :| p in overrides && Endable(k, p) && (EraseShortens(k, ":" + p); Consumed(Erase(k, ":" + p), overrides));
      OneEnding(k, o, p);
    }
  }

  lemma EndableHasColon(k: string, o: string)
    requires Endable(k, o)
    ensures !ColonFree(k) && EndsWith(k, ":" + o)
  {
    EndsWithAt(k, ":" + o, 0);
  }

  /** A definition has been found, or some key can still be consumed. */
  ghost predicate Live(st: Choice, overrides: seq<string>) {
    st.match_.Some? || exists k :: k in st.active.vals && Consumed(k, overrides)
  }

  lemma VisitLive(st: Choice, a: string, o: string, overrides: seq<string>)
    requires st.active.Valid() && a in st.active.vals && AllColonFree(overrides) && o in overrides
    ensures Live(Visit(st, a, o), overrides) <==> Live(st, overrides)
  {
    hide Erase, EndsWith;
    var r := Visit(st, a, o);
    if EndsWith(a, ":" + o) {
      assert Endable(a, o);
      ShortenedConsumed(a, o, overrides);
      var b := Erase(a, ":" + o);
      hide Consumed;
      assert b in r.active.vals && forall k :: k in r.active.vals <==> k == b || (k in st.active.vals && k != a);
    } else if a == o {
      assert Consumed(a, overrides);
    }
  }

  lemma {:induction false} VisitAllLive(st: Choice, todo: seq<string>, o: string, overrides: seq<string>)
    requires st.active.Valid() && Distinct(todo) && (forall a :: a in todo ==> a in st.active.vals)
    requires AllColonFree(overrides) && o in overrides
    ensures Live(VisitAll(st, todo, o), overrides) <==> Live(st, overrides)
    decreases |todo|
  {
    if todo != [] {
      assert forall a :: a in todo[1..] ==> a in todo && a != todo[0];
      VisitLive(st, todo[0], o, overrides);
      VisitAllLive(Visit(st, todo[0], o), todo[1..], o, overrides);
    }
  }

  lemma {:induction false} PassLive(st: Choice, os: seq<string>, overrides: seq<string>)
    requires st.active.Valid() && AllColonFree(overrides) && forall o :: o in os ==> o in overrides
    ensures Live(Pass(st, os), overrides) <==> Live(st, overrides)
    decreases |os|
  {
    if os != [] {
      VisitAllLive(st, KeysOf(st.active), os[0], overrides);
      PassLive(VisitAll(st, KeysOf(st.active), os[0]), os[1..], overrides);
    }
  }

  /** A visit that rewrites nothing leaves only keys that o neither ends nor equals. */
  lemma {:induction false} QuietVisit(st: Choice, todo: seq<string>, o: string)
    requires st.active.Valid() && Distinct(todo) && (forall a :: a in todo ==> a in st.active.vals)
    requires !VisitAll(st, todo, o).mod
    ensures var r := VisitAll(st, todo, o);
            && r.active.vals.Keys <= st.active.vals.Keys
            && forall a :: a in todo && a in r.active.vals ==> !EndsWith(a, ":" + o) && a != o
    decreases |todo|
  {
    if todo != [] {
      assert forall a :: a in todo[1..] ==> a in todo && a != todo[0];
      QuietVisit(Visit(st, todo[0], o), todo[1..], o);
    }
  }

  lemma {:induction false} QuietPass(st: Choice, os: seq<string>)
    requires st.active.Valid() && !Pass(st, os).mod
    ensures var r := Pass(st, os);
            && r.active.vals.Keys <= st.active.vals.Keys
            && forall a, o :: a in r.active.vals && o in os ==> !EndsWith(a, ":" + o) && a != o
    decreases |os|
  {
    hide VisitAll, EndsWith, Dict.Valid;
    if os != [] {
      var next := VisitAll(st, KeysOf(st.active), os[0]);
      QuietPass(next, os[1..]);
      QuietVisit(st, KeysOf(st.active), os[0]);
      assert os == [os[0]] + os[1..];
    }
  }

  lemma {:induction false} ResolveFindsIff(active: Dict<Name>, found: Option<Name>, overrides: seq<string>)
    requires active.Valid() && AllColonFree(overrides)
    ensures Resolve(active, found, overrides).Some? <==> Live(Choice(active, found, false), overrides)
    decreases TotalLength(active.keys)
  {
    var start := Choice(active, found, false);
    var st := Pass(start, overrides);
    PassLive(start, overrides, overrides);
    if st.mod {
      ResolveFindsIff(st.active, st.match_, overrides);
      assert Live(Choice(st.active, st.match_, false), overrides) <==> Live(st, overrides);
    } else {
      QuietPass(start, overrides);
      forall k | k in st.active.vals ensures !Consumed(k, overrides) {
        assert forall o :: o in overrides ==> !EndsWith(k, ":" + o) && k != o;
      }
    }
  }

  /**
   * A definition is chosen exactly if the key of some active definition can be consumed: it is an override,
   * or becomes one when overrides at its end are erased.
   */
  lemma ChosenIff(cands: seq<Entry>, overrides: seq<string>)
    requires AllColonFree(overrides)
    ensures Choose(cands, overrides).Some? <==>
      exists e :: e in cands && Active(e.o, overrides) && Consumed(Join(e.o), overrides)
  {
    var d := ActiveDict(cands, overrides);
    ActiveDictFrom(cands, overrides);
    ResolveFindsIff(d, None, overrides);
    hide Consumed, Active, Join;
    forall k | k in d.vals && Consumed(k, overrides)
      ensures exists e :: e in cands && Active(e.o, overrides) && Consumed(Join(e.o), overrides)
    {
      var e :| e in cands && Active(e.o, overrides) && k == Join(e.o) && d.vals[k] == e.r;
    }
  }

  // ---- what can be consumed ----

  /** A key none of whose components hides in another can be consumed. */
  lemma {:induction false} PrefixFreeConsumed(parts: seq<string>, overrides: seq<string>)
    requires parts != [] && AllColonFree(parts) && PrefixFree(parts) && forall c :: c in parts ==> c in overrides
    ensures Consumed(Join(parts), overrides)
    decreases |Join(parts)|
  {
    hide Erase, EndsWith, StartsWith, ColonFree;
    var k, o := Join(parts), parts[|parts| - 1];
    if |parts| > 1 {
      JoinEnds(parts, o);
      assert Endable(k, o);
      assert forall c :: c in parts[1..] ==> c in parts;
      assert AllColonFree(parts[1..]);
      EraseJoin(parts, o);
      var fewer := [parts[0]] + Drop(parts[1..], o);
      assert forall c :: c in fewer ==> c in parts;
      EraseShortens(k, ":" + o) by { EndableHasColon(k, o); }
      hide Join;
      PrefixFreeConsumed(fewer, overrides);
    }
  }

  /** If there is a definition with all its components in the list, none of which hides inside another, one is chosen. */
  lemma ActiveIsChosen(cands: seq<Entry>, overrides: seq<string>, e: Entry)
    requires AllColonFree(overrides)
    requires e in cands && e.o != [] && (forall c :: c in e.o ==> c in overrides) && PrefixFree(e.o)
    ensures Choose(cands, overrides).Some?
  {
    assert |e.o| == 1 ==> Join(e.o) == e.o[0];
    PrefixFreeConsumed(e.o, overrides);
    ChosenIff(cands, overrides);
  }

  /**
   * Without that condition an active definition can be lost: erasing ":a" from "x:ab:a" leaves "xb". So it is for
   * all components, as long as the rest is not an override by chance.
   */
  lemma {:induction false} HiddenComponentLosesDefinition(def: Name, x: string, a: string, b: string)
    requires a != "" && b != "" && AllColonFree([x, a, b]) && x + b !in [x, a + b, a]
    ensures var o := [x, a + b, a];
            Active(o, o) && Choose([Entry(def, o)], o) == None
  {
    var o, k := [x, a + b, a], x + ":" + (a + b) + ":" + a;
    assert x in [x, a, b] && a in [x, a, b] && b in [x, a, b];
    HiddenKey(x, a, b);
    assert AllColonFree(o);
    hide Join, Erase, EndsWith, ColonFree;
    ShortenedConsumed(k, a, o);
    assert !Consumed(x + b, o) by {
      forall p ensures !Endable(x + b, p) {
        NotEndable(x + b, p);
      }
    }
    hide Consumed, Active, Choose;
    assert Active(o, o) by { AllThereActive(o); }
    ChosenIff([Entry(def, o)], o);
  }

  lemma AllThereActive(o: seq<string>)
    requires |o| > 1
    ensures Active(o, o)
  {
  }

  lemma {:induction false} HiddenKey(x: string, a: string, b: string)
    requires ColonFree(x) && ColonFree(a) && ColonFree(b)
    ensures var k := x + ":" + (a + b) + ":" + a;
            && Join([x, a + b, a]) == k && Endable(k, a) && Erase(k, ":" + a) == x + b && ColonFree(x + b)
  {
    var p, k := ":" + a, x + ":" + (a + b) + ":" + a;
    assert [x, a + b, a][1..] == [a + b, a] && [a + b, a][1..] == [a];
    assert Join([a]) == a && Join([a + b, a]) == (a + b) + ":" + a;
    assert Join([x, a + b, a]) == x + ":" + ((a + b) + ":" + a) == k;
    assert k[|k| - |p|..] == p;
    assert k == x + (p + (b + p));
    EraseBehind(x, p + (b + p), a);
    BeginsWith(p, b + p);
    EraseStep(p + (b + p), p);
    EraseBehind(b, p, a);
    BeginsWith(p, "");
    assert p + "" == p;
    EraseStep(p, p);
    assert Erase("", p) == "" && b + "" == b;
  }

  lemma NotEndable(k: string, o: string)
    requires ColonFree(k)
    ensures !Endable(k, o)
  {
    if EndsWith(k, ":" + o) {
      EndsWithAt(k, ":" + o, 0);
    }
  }

  // ---- single-component overrides: the rightmost one wins ----

  function FirstIndex(os: seq<string>, c: string): (i: nat)
    requires c in os
    ensures i < |os| && os[i] == c && c !in os[..i]
  {
    if os[0] == c then 0
    else
      assert os == [os[0]] + os[1..];
      var i := FirstIndex(os[1..], c);
      assert os[..i + 1] == [os[0]] + os[1..][..i];
      i + 1
  }

  lemma {:induction false} VisitAllSingle(st: Choice, todo: seq<string>, o: string)
    requires st.active.Valid() && Distinct(todo) && (forall a :: a in todo ==> a in st.active.vals)
    requires AllColonFree(todo)
    ensures var r := VisitAll(st, todo, o);
            && r.mod == st.mod
            && r.active.vals == (if o in todo then st.active.vals - {o} else st.active.vals)
            && r.match_ == (if o in todo then Some(st.active.vals[o]) else st.match_)
    decreases |todo|
  {
    if todo != [] {
      var a := todo[0];
      assert forall b :: b in todo[1..] ==> b in todo && b != a;
      if EndsWith(a, ":" + o) {
        EndsWithAt(a, ":" + o, 0);
      }
      VisitAllSingle(Visit(st, a, o), todo[1..], o);
    }
  }

  /** Overrides that are no keys leave the choice alone. */
  lemma {:induction false} PassMiss(st: Choice, os: seq<string>)
    requires st.active.Valid() && forall k :: k in st.active.vals ==> ColonFree(k) && k !in os
    ensures Pass(st, os).mod == st.mod && Pass(st, os).match_ == st.match_
    decreases |os|
  {
    if os != [] {
      var todo := KeysOf(st.active);
      VisitAllSingle(st, todo, os[0]);
      assert os[0] !in todo;
      PassMiss(VisitAll(st, todo, os[0]), os[1..]);
    }
  }

  lemma {:induction false} PassSingle(st: Choice, os: seq<string>, w: string)
    requires st.active.Valid() && forall k :: k in st.active.vals ==> ColonFree(k)
    requires w in st.active.vals && w in os
    requires forall k :: k in st.active.vals && k in os ==> FirstIndex(os, k) <= FirstIndex(os, w)
    ensures Pass(st, os).mod == st.mod && Pass(st, os).match_ == Some(st.active.vals[w])
    decreases |os|
  {
    var todo := KeysOf(st.active);
    var next := VisitAll(st, todo, os[0]);
    VisitAllSingle(st, todo, os[0]);
    assert os == [os[0]] + os[1..];
    if w == os[0] {
      forall k | k in next.active.vals ensures k !in os[1..] {
        assert k != os[0];
      }
      PassMiss(next, os[1..]);
    } else {
      forall k | k in next.active.vals && k in os[1..]
        ensures FirstIndex(os[1..], k) <= FirstIndex(os[1..], w)
      {
        assert k != os[0] && FirstIndex(os, k) <= FirstIndex(os, w);
      }
      PassSingle(next, os[1..], w);
    }
  }

  /**
   * With single-component candidates the winner is the active one whose first occurrence in the
   * override list is furthest right.
   */
  lemma LastFirstOccurrenceWins(cands: seq<Entry>, overrides: seq<string>, w: Entry)
    requires AllColonFree(overrides)
    requires forall e :: e in cands ==> |e.o| == 1
    requires w in cands && w.o[0] in overrides
    requires forall e :: e in cands && e.o == w.o ==> e.r == w.r
    requires forall e :: e in cands && e.o[0] in overrides
                         ==> FirstIndex(overrides, e.o[0]) <= FirstIndex(overrides, w.o[0])
    ensures Choose(cands, overrides) == Some(w.r)
  {
    var d := ActiveDict(cands, overrides);
    ActiveDictFrom(cands, overrides);
    forall k | k in d.vals
      ensures k in overrides && FirstIndex(overrides, k) <= FirstIndex(overrides, w.o[0])
    {
      var e :| e in cands && Active(e.o, overrides) && k == Join(e.o);
    }
    var k := w.o[0];
    assert Active(w.o, overrides) && k == Join(w.o);
    var e :| e in cands && Active(e.o, overrides) && k == Join(e.o) && d.vals[k] == e.r;
    assert e.o == [k] == w.o;
    PassSingle(Choice(d, None, false), overrides, k);
  }

  /** So with a duplicate-free override list the rightmost active override wins ... */
  lemma RightmostWins(cands: seq<Entry>, overrides: seq<string>, w: Entry, i: nat)
    requires AllColonFree(overrides) && Distinct(overrides)
    requires forall e :: e in cands ==> |e.o| == 1
    requires w in cands && i < |overrides| && w.o[0] == overrides[i]
    requires forall e :: e in cands && e.o == w.o ==> e.r == w.r
    requires forall e :: e in cands ==> e.o[0] !in overrides[i + 1..]
    ensures Choose(cands, overrides) == Some(w.r)
  {
    forall e | e in cands && e.o[0] in overrides
      ensures FirstIndex(overrides, e.o[0]) <= FirstIndex(overrides, w.o[0])
    {
      var j := FirstIndex(overrides, e.o[0]);
      assert forall j :: i < j < |overrides| ==> overrides[j] == overrides[i + 1..][j - i - 1];
      var k := FirstIndex(overrides, w.o[0]);
      assert k == i;
    }
    LastFirstOccurrenceWins(cands, overrides, w);
  }

  /** ... and with a repeated override it need not: "a" is rightmost in a:b:a, yet b's definition is used. */
  lemma RepeatedOverrideLoses()
    ensures Choose([Entry(["X", "a"], ["a"]), Entry(["X", "b"], ["b"])], ["a", "b", "a"]) == Some(["X", "b"])
  {
    var os := ["a", "b", "a"];
    var cands := [Entry(["X", "a"], ["a"]), Entry(["X", "b"], ["b"])];
    assert FirstIndex(os, "a") == 0 && FirstIndex(os, "b") == 1;
    LastFirstOccurrenceWins(cands, os, cands[1]);
  }

  /**
   * Definitions whose keys become the same are taken in the order in which they were made: of X:a:b and X:a:b:b
   * under a:b the later one is used.
   */
  lemma LaterDefinitionWins(r1: Name, r2: Name)
    ensures Choose([Entry(r1, ["a", "b"]), Entry(r2, ["a", "b", "b"])], ["a", "b"]) == Some(r2)
    ensures Choose([Entry(r2, ["a", "b", "b"]), Entry(r1, ["a", "b"])], ["a", "b"]) == Some(r1)
  {
    SameKeyLater(r1, ["a", "b"], "a:b", r2, ["a", "b", "b"], "a:b:b");
    SameKeyLater(r2, ["a", "b", "b"], "a:b:b", r1, ["a", "b"], "a:b");
  }

  lemma SameKeyLater(r1: Name, o1: seq<string>, k1: string, r2: Name, o2: seq<string>, k2: string)
    requires (o1 == ["a", "b"] && k1 == "a:b" && o2 == ["a", "b", "b"] && k2 == "a:b:b")
             || (o2 == ["a", "b"] && k2 == "a:b" && o1 == ["a", "b", "b"] && k1 == "a:b:b")
    ensures Choose([Entry(r1, o1), Entry(r2, o2)], ["a", "b"]) == Some(r2)
  {
    var os := ["a", "b"];
    var d := ActiveDict([Entry(r1, o1), Entry(r2, o2)], os);
    TwoActive(r1, o1, r2, o2);
    assert Join(o1) == k1 && Join(o2) == k2 by {
      assert ["a", "b", "b"][1..] == ["b", "b"] && ["b", "b"][1..] == ["b"] && ["a", "b"][1..] == ["b"];
      assert Join(["b"]) == "b" && Join(["b", "b"]) == "b:b";
    }
    hide EndsWith, Erase, TotalLength, ActiveDict;
    var st2 := Choice(Dict(["a"], map["a" := r2]), None, true);
    FirstPass(d, r1, k1, r2, k2);
    assert Pass(Choice(d, None, false), os) == st2;
    LastPass(r2);
  }

  /** Both are active. */
  lemma TwoActive(r1: Name, o1: seq<string>, r2: Name, o2: seq<string>)
    requires |o1| > 1 && |o2| > 1 && Join(o1) != Join(o2) && (forall c :: c in o1 ==> c == "a" || c == "b") && forall c :: c in o2 ==> c == "a" || c == "b"
    ensures ActiveDict([Entry(r1, o1), Entry(r2, o2)], ["a", "b"]) == Dict([Join(o1), Join(o2)], map[Join(o1) := r1, Join(o2) := r2])
  {
    hide Join;
    var cands := [Entry(r1, o1), Entry(r2, o2)];
    assert cands[..1] == [Entry(r1, o1)] && cands[..1][..0] == [];
    assert Active(o1, ["a", "b"]) && Active(o2, ["a", "b"]);
    assert ActiveDict([], ["a", "b"]) == Dict([], map[]);
    assert ActiveDict(cands[..1], ["a", "b"]) == Dict([Join(o1)], map[Join(o1) := r1]);
  }

  /** The first turn of `while mod` makes the keys the same. */
  lemma FirstPass(d: Dict<Name>, r1: Name, k1: string, r2: Name, k2: string)
    requires (k1 == "a:b" && k2 == "a:b:b") || (k1 == "a:b:b" && k2 == "a:b")
    requires d == Dict([k1, k2], map[k1 := r1, k2 := r2]) && d.Valid()
    ensures Pass(Choice(d, None, false), ["a", "b"]) == Choice(Dict(["a"], map["a" := r2]), None, true)
  {
    KeysBecomeSame();
    hide EndsWith, Erase, TotalLength, Dict.Valid, Dict.Put, Dict.Del;
    assert |k1| > 1 && |k2| > 1;
    var st0 := Choice(d, None, false);
    assert Visit(st0, k1, "a") == st0 && Visit(st0, k2, "a") == st0;
    var st1 := Visit(st0, k1, "b");
    FirstMove(d, r1, k1, r2, k2);
    var st2 := Visit(st1, k2, "b");
    SecondMove(st1.active, r1, r2, k2);
    hide Visit;
    assert [k1, k2][1..] == [k2] && [k2][1..] == [];
    assert VisitAll(st0, [k2], "a") == st0;
    assert VisitAll(st0, [k1, k2], "a") == st0;
    assert VisitAll(st1, [k2], "b") == st2;
    assert VisitAll(st0, [k1, k2], "b") == st2;
    hide VisitAll;
    assert ["a", "b"][1..] == ["b"] && ["b"][1..] == [];
    assert Pass(st2, []) == st2;
    assert Pass(st0, ["b"]) == st2;
  }

  lemma FirstMove(d: Dict<Name>, r1: Name, k1: string, r2: Name, k2: string)
    requires k1 != k2 && EndsWith(k1, ":" + "b") && Erase(k1, ":" + "b") == "a" && "a" != k2
    requires d == Dict([k1, k2], map[k1 := r1, k2 := r2]) && d.Valid()
    ensures Visit(Choice(d, None, false), k1, "b") == Choice(Dict([k2, "a"], map[k2 := r2, "a" := r1]), None, true)
  {
    hide EndsWith, Erase, TotalLength;
    assert [k1, k2][1..] == [k2] && WithoutFirst([k1, k2], k1) == [k2];
    assert d.Del(k1) == Dict([k2], map[k2 := r2]);
  }

  lemma SecondMove(d: Dict<Name>, r1: Name, r2: Name, k2: string)
    requires EndsWith(k2, ":" + "b") && Erase(k2, ":" + "b") == "a" && "a" != k2
    requires d == Dict([k2, "a"], map[k2 := r2, "a" := r1]) && d.Valid()
    ensures Visit(Choice(d, None, true), k2, "b") == Choice(Dict(["a"], map["a" := r2]), None, true)
  {
    hide EndsWith, Erase, TotalLength;
    assert [k2, "a"][1..] == ["a"] && WithoutFirst([k2, "a"], k2) == ["a"];
    assert d.Del(k2) == Dict(["a"], map["a" := r1]);
  }

  lemma LastPass(r2: Name)
    ensures Dict(["a"], map["a" := r2]).Valid()
    ensures Resolve(Dict(["a"], map["a" := r2]), None, ["a", "b"]) == Some(r2)
  {
    KeysBecomeSame();
    hide EndsWith, Erase, TotalLength;
    var st := Choice(Dict(["a"], map["a" := r2]), None, false);
    assert st.active.Valid();
    var last := Choice(Dict([], map[]), Some(r2), false);
    assert Visit(st, "a", "a") == last;
    assert ["a"][1..] == [];
    assert VisitAll(last, [], "a") == last;
    assert VisitAll(st, ["a"], "a") == last;
    assert VisitAll(last, [], "b") == last;
    assert ["a", "b"][1..] == ["b"] && ["b"][1..] == [];
    assert Pass(last, []) == last;
    assert Pass(last, ["b"]) == last;
    assert Pass(st, ["a", "b"]) == last;
  }

  lemma KeysBecomeSame()
    ensures EndsWith("a:b", ":" + "b") && EndsWith("a:b:b", ":" + "b") && !EndsWith("a", ":" + "b") && !EndsWith("a", ":" + "a")
    ensures !EndsWith("a:b", ":" + "a") && !EndsWith("a:b:b", ":" + "a")
    ensures Erase("a:b", ":" + "b") == "a" == Erase("a:b:b", ":" + "b")
  {
    assert ":" + "b" == ":b" && ":" + "a" == ":a";
    assert "a:b"[1..] == ":b" && "a:b:b"[3..] == ":b" && "a:b:b"[1..] == ":b:b" && ":b:b"[2..] == ":b" && ":b"[2..] == "";
    assert "a:b"[1..][0] == ':' && "a:b"[2] != 'a' && "a:b:b"[4] != 'a';
    EndsWithChar("a:b", ":a");
    EndsWithChar("a:b:b", ":a");
    assert Erase(":b", ":b") == "" && Erase(":b:b", ":b") == "";
    assert !StartsWith("a:b", ":b") && !StartsWith("a:b:b", ":b");
  }

  lemma EndsWithChar(s: string, t: string)
    requires |t| == 2 && |s| >= 2 && s[|s| - 1] != t[1]
    ensures !EndsWith(s, t)
  {
    assert s[|s| - 2..][1] == s[|s| - 1];
  }
}
