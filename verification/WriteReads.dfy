// From a write to what is read afterwards, spelled out in names, words and characters.
module WriteReads {
  import opened PyStrings
  import opened Options
  import opened DataTypes
  import opened OverrideIndex
  import opened OverrideChoice
  import opened Evaluation
  import opened ActiveOverrides
  import opened Writes

  // ---- operation keywords ----

  ghost predicate WithoutCapitals(parts: seq<string>) {
    forall c, i :: c in parts && 0 <= i < |c| ==> !('A' <= c[i] <= 'Z')
  }

  /** Component k of v is an operation keyword, and what is behind it has no capitals. */
  ghost predicate IsKeyword(v: Name, k: nat) {
    1 <= k < |v| && (v[k] == "append" || v[k] == "prepend" || v[k] == "remove") && WithoutCapitals(v[k + 1..])
  }

  lemma NoCapitalsIs(parts: seq<string>)
    ensures NoCapitals(parts) <==> WithoutCapitals(parts)
  {
    if WithoutCapitals(parts) {
      forall i, j | 0 <= i < |parts| && 0 <= j < |parts[i]| ensures !('A' <= parts[i][j] <= 'Z') {
        assert parts[i] in parts;
      }
    }
  }

  /** The keyword of a name is the first one. */
  lemma {:induction false} KeywordIsFirst(v: Name, i: nat)
    requires 1 <= i
    ensures var k := KeywordAt(v, i);
            if k.None? then forall j :: i <= j ==> !IsKeyword(v, j)
            else IsKeyword(v, k.value) && i <= k.value && forall j :: i <= j < k.value ==> !IsKeyword(v, j)
    decreases |v| - i
  {
    hide IsKeyword, KeywordOf, NoCapitals;
    KeywordHere(v, i);
    if i < |v| {
      KeywordIsFirst(v, i + 1);
    }
  }

  lemma KeywordHere(v: Name, i: nat)
    requires 1 <= i
    ensures i < |v| ==> (IsKeyword(v, i) <==> KeywordOf(v[i]).Some? && NoCapitals(v[i + 1..]))
    ensures forall j :: |v| <= j ==> !IsKeyword(v, j)
  {
    if i < |v| {
      NoCapitalsIs(v[i + 1..]);
    }
  }

  /** A name that an operation can be added to. */
  ghost predicate Operand(v: Name) {
    && v != [] && (|v| == 1 ==> v[0] == "" || !('a' <= v[0][0] <= 'z' || '0' <= v[0][0] <= '9'))
    && forall k :: !IsKeyword(v, k)
  }

  lemma OperationIs(s: Store, o: seq<string>, v: Name, c: string, add: seq<string>, t: Text, parsing: bool)
    requires Sound(s.index) && Operand(v) && WithoutCapitals(add) && (c == "append" || c == "prepend" || c == "remove")
    ensures WellNamed(v)
    ensures SetVar(s, o, v + [c] + add, t, parsing) ==
            AddOp(s, v, if c == "append" then Append else if c == "prepend" then Prepend else Remove, Op(t, add))
  {
    KeywordIsFirst(v, 1);
    NoCapitalsIs(add);
    KeywordBehind(v, c, add, 1);
    var w := v + [c] + add;
    assert w[..|v|] == v && w[|v|] == c && w[|v| + 1..] == add;
  }

  /**
   * setVar on v:append, with overrides behind it or not, puts the text behind the unexpanded read of v, and
   * on v:prepend before it, under every list that has all of the overrides. Under any other it changes nothing.
   */
  lemma OperationReads(s: Store, o: seq<string>, o': seq<string>, v: Name, add: seq<string>, t: Text, parsing: bool)
    requires Sound(s.index) && Operand(v) && WithoutCapitals(add)
    ensures var s' := SetVar(s, o, v + ["append"] + add, t, parsing);
            Sound(s'.index) && Raw(s', o', v) == if add == [] || add == [""] || (forall c :: c in add ==> c in o') then Some(OrEmpty(Raw(s, o', v)) + t) else Raw(s, o', v)
    ensures var s' := SetVar(s, o, v + ["prepend"] + add, t, parsing);
            Sound(s'.index) && Raw(s', o', v) == if add == [] || add == [""] || (forall c :: c in add ==> c in o') then Some(t + OrEmpty(Raw(s, o', v))) else Raw(s, o', v)
    ensures var s' := SetVar(s, o, v + ["remove"] + add, t, parsing);
            Sound(s'.index) && Raw(s', o', v) == Raw(s, o', v)
  {
    OperationIs(s, o, v, "append", add, t, parsing);
    OperationIs(s, o, v, "prepend", add, t, parsing);
    OperationIs(s, o, v, "remove", add, t, parsing);
    hide Raw, SetVar, AddOp, WithoutCapitals, Operand;
    AppendOpReads(s, o', v, Op(t, add));
    PrependOpReads(s, o', v, Op(t, add));
    RemoveOpReads(s, o', v, Op(t, add));
  }

  // ---- removals ----

  /** Stripping twice is stripping once for both sets. */
  lemma {:induction false} StripTwice(t: Text, a: set<Text>, b: set<Text>)
    ensures Strip(Strip(t, a), b) == Strip(t, a + b)
    decreases |t|
  {
    hide IsSpace;
    if t != [] {
      if IsSpace(t[0]) {
        StripTwice(t[1..], a, b);
        assert ([t[0]] + Strip(t[1..], a))[1..] == Strip(t[1..], a);
      } else {
        var w, rest := t[..Evaluation.Run(t)], t[Evaluation.Run(t)..];
        StripTwice(rest, a, b);
        if w in a {
          assert [] + Strip(rest, a) == Strip(rest, a);
        } else {
          StripExact(rest, a);
          var u := Strip(rest, a);
          RunAfter(w, u);
          assert (w + u)[..|w|] == w && (w + u)[|w|..] == u && (w + u)[0] == w[0];
        }
      }
    }
  }

  /** The two stores agree on all that is of lower rank than v. */
  lemma LowerNamesAgree(s: Store, s': Store, rk': Name -> nat, v: Name, op: Op)
    requires Sound(s.index) && Sound(s'.index) && Ranked(s', rk') && WellNamed(v) && s' == AddOp(s, v, Remove, op)
    ensures var dom := iset n | rk'(n) < rk'(v); Closed(s', dom) && AgreeOn(s', s, dom)
  {
    var dom := iset n | rk'(n) < rk'(v);
    forall n | n in dom ensures FlagsAt(s', n) == FlagsAt(s, n) && EntriesAt(s', n) == EntriesAt(s, n) {
      EntryGained(s, v, n);
    }
  }

  /** A list that changes when v is registered holds v then. */
  lemma EntryGained(s: Store, v: Name, n: Name)
    requires WellNamed(v)
    ensures ListAt(Update(s.index, v), n) == ListAt(s.index, n) || exists e :: e in ListAt(Update(s.index, v), n) && e.r == v
  {
    if |v| > 1 {
      UpdateAt(s.index, v, n);
      if n <= v && Reached(v, |n|) {
        var e := EntryAt(v, |n|);
        assert e in Added(ListAt(s.index, n), e) && e.r == v;
      }
    }
  }

  /** The value is the expanded text without the words of the removals that apply. */
  lemma ValueIs(s: Store, o: seq<string>, rk: Name -> nat, v: Name)
    requires Sound(s.index) && Ranked(s, rk)
    ensures Raw(s, o, v).None? ==> Value(s, o, rk, v) == None
    ensures Raw(s, o, v).Some? ==>
      Below(Raw(s, o, v).value, rk, rk(v)) && (forall i :: 0 <= i < |OpsAt(s, v, Remove)| ==> Below(OpsAt(s, v, Remove)[i].text, rk, rk(v))) &&
      Value(s, o, rk, v) == Some(Strip(Expand(s, o, rk, Raw(s, o, v).value), RemovedBy(s, o, rk, v, OpsAt(s, v, Remove))))
  {
    var raw := Raw(s, o, v);
    ParseOfIs(s, o, rk, v, raw, if raw.Some? then Expand(s, o, rk, raw.value) else []);
    hide Value, Expand, Raw, Ranked;
    assert ParseOf(s, o, rk, v).value == Value(s, o, rk, v);
  }

  /** The value of v after one more removal is added: the words of its expanded text go. */
  lemma RemovalAdded(s: Store, s': Store, o: seq<string>, rk: Name -> nat, rk': Name -> nat, v: Name, op: Op)
    requires Sound(s.index) && Ranked(s, rk) && Sound(s'.index) && Ranked(s', rk')
    requires WellNamed(v) && s' == AddOp(s, v, Remove, op)
    ensures Value(s', o, rk', v) ==
            var was := Value(s, o, rk, v);
            if was.Some? && Applies(op, o) then Some(Strip(was.value, SeqSet(Words(Expand(s, o, rk, op.text))))) else was
  {
    var raw := Raw(s, o, v);
    var ops := OpsAt(s, v, Remove);
    assert OpsAt(s', v, Remove) == ops + [op];
    RemoveOpReads(s, o, v, op);
    LowerNamesAgree(s, s', rk', v, op);
    hide AddOp, Applies, Value, Expand, Raw, Strip, RemovedBy, Words, Closed, AgreeOn;
    ValueIs(s, o, rk, v);
    ValueIs(s', o, rk', v);
    if raw.Some? {
      RemovedWordsAdded(s, s', o, rk, rk', v, ops, op, raw.value);
      var t, more := Expand(s, o, rk, raw.value), if Applies(op, o) then SeqSet(Words(Expand(s, o, rk, op.text))) else {};
      var before := RemovedBy(s, o, rk, v, ops);
      StripTwice(t, before, more);
      assert before + {} == before;
    }
  }

  lemma RemovedWordsAdded(s: Store, s': Store, o: seq<string>, rk: Name -> nat, rk': Name -> nat, v: Name, ops: seq<Op>, op: Op, raw: Text)
    requires Sound(s.index) && Ranked(s, rk) && Sound(s'.index) && Ranked(s', rk')
    requires OpsAt(s, v, Remove) == ops && OpsAt(s', v, Remove) == ops + [op]
    requires var dom := iset n | rk'(n) < rk'(v); Closed(s', dom) && AgreeOn(s', s, dom)
    requires Below(raw, rk', rk'(v))
    ensures Expand(s', o, rk', raw) == Expand(s, o, rk, raw)
    ensures (forall i :: 0 <= i < |ops| ==> Below(ops[i].text, rk, rk(v)))
    ensures (forall i :: 0 <= i < |ops + [op]| ==> Below((ops + [op])[i].text, rk', rk'(v)))
    ensures RemovedBy(s', o, rk', v, ops + [op]) ==
            RemovedBy(s, o, rk, v, ops) + if Applies(op, o) then SeqSet(Words(Expand(s, o, rk, op.text))) else {}
  {
    var dom := iset n | rk'(n) < rk'(v);
    OpsBelow(s, rk, v, Remove);
    OpsBelow(s', rk', v, Remove);
    assert Below((ops + [op])[|ops|].text, rk', rk'(v));
    forall i | 0 <= i < |ops| ensures Below(ops[i].text, rk', rk'(v)) && Within(ops[i].text, dom) {
      assert (ops + [op])[i] == ops[i];
    }
    hide Applies, Value, Expand, RemovedBy, Words, Closed, AgreeOn, Ranked, OpsAt;
    ExpandFrame(s', s, o, rk', rk, dom, raw);
    ExpandFrame(s', s, o, rk', rk, dom, op.text);
    RemovedFrame(s', s, o, rk', rk, dom, v, ops);
    RemovedOne(s', o, rk', v, ops, op);
  }

  /**
   * setVar on v:remove, with overrides behind it or not: the value of v loses the words of the expanded text, under
   * every list that has all of the overrides, whatever was removed from it before. Under any other it stays.
   */
  lemma RemoveReads(s: Store, o: seq<string>, o': seq<string>, rk: Name -> nat, rk': Name -> nat, v: Name, add: seq<string>, t: Text,
                    parsing: bool)
    requires Sound(s.index) && Ranked(s, rk) && Operand(v) && WithoutCapitals(add)
    requires Ranked(SetVar(s, o, v + ["remove"] + add, t, parsing), rk')
    ensures var s' := SetVar(s, o, v + ["remove"] + add, t, parsing);
            && Sound(s'.index) && Raw(s', o', v) == Raw(s, o', v)
            && var was := Value(s, o', rk, v);
               if was.None? || !(add == [] || add == [""] || forall c :: c in add ==> c in o') then Value(s', o', rk', v) == was
               else
                 var gone, left := Words(Expand(s, o', rk, t)), Value(s', o', rk', v);
                 && left == Some(Strip(was.value, SeqSet(gone)))
                 && Words(left.value) == FilterOut(Words(was.value), SeqSet(gone)) && Spaces(left.value) == Spaces(was.value)
  {
    OperationReads(s, o, o', v, add, t, parsing);
    OperationIs(s, o, v, "remove", add, t, parsing);
    var s' := SetVar(s, o, v + ["remove"] + add, t, parsing);
    hide SetVar, AddOp, Value, Expand, Ranked, Raw, Operand;
    RemovalAdded(s, s', o', rk, rk', v, Op(t, add));
    var was := Value(s, o', rk, v);
    if was.Some? {
      StripExact(was.value, SeqSet(Words(Expand(s, o', rk, t))));
    }
  }

  // ---- words ----

  /** White space is what Python's str.isspace says, character by character. */
  lemma WhiteSpaceIs(c: char)
    ensures IsWhite(c) <==>
      c as int in {0x09, 0x0A, 0x0B, 0x0C, 0x0D, 0x1C, 0x1D, 0x1E, 0x1F, 0x20, 0x85, 0xA0, 0x1680, 0x2000, 0x2001, 0x2002, 0x2003, 0x2004,
                   0x2005, 0x2006, 0x2007, 0x2008, 0x2009, 0x200A, 0x2028, 0x2029, 0x202F, 0x205F, 0x3000}
  {
  }

  /** Words between gaps: the first gap, the first word, the second gap, and so on. */
  function Spread(gaps: seq<Text>, words: seq<Text>): Text
    requires |gaps| == |words| + 1
  {
    if words == [] then gaps[0] else gaps[0] + (words[0] + Spread(gaps[1..], words[1..]))
  }

  /** Gaps of blanks, tabs and line ends, not empty between two words; words of printable ASCII characters and references. */
  ghost predicate Spaced(gaps: seq<Text>, words: seq<Text>) {
    && |gaps| == |words| + 1
    && (forall g: Text, i :: g in gaps && 0 <= i < |g| ==> g[i] == Ch(' ') || g[i] == Ch('\t') || g[i] == Ch('\n') || g[i] == Ch('\r'))
    && (forall k :: 0 < k < |words| ==> gaps[k] != [])
    && (forall w :: w in words ==> w != [])
    && (forall w: Text, i :: w in words && 0 <= i < |w| ==> w[i].Ref? || '!' <= w[i].c <= '~')
  }

  /** The words with those in ws left empty. */
  function Without(words: seq<Text>, ws: set<Text>): (r: seq<Text>)
    ensures |r| == |words|
  {
    seq(|words|, i requires 0 <= i < |words| => if words[i] in ws then [] else words[i])
  }

  lemma {:induction false} GapFirst(g: Text, t: Text, ws: set<Text>)
    requires forall i :: 0 <= i < |g| ==> IsSpace(g[i])
    ensures Words(g + t) == Words(t) && Strip(g + t, ws) == g + Strip(t, ws)
  {
    if g == [] {
      assert g + t == t && [] + Strip(t, ws) == Strip(t, ws);
    } else {
      hide IsSpace;
      assert (g + t)[1..] == g[1..] + t && (g + t)[0] == g[0];
      GapFirst(g[1..], t, ws);
      assert g == [g[0]] + g[1..];
    }
  }

  /** Such a text is split into just these words, and stripping takes out the ones named. */
  lemma {:induction false} WordsOfSpread(gaps: seq<Text>, words: seq<Text>, ws: set<Text>)
    requires Spaced(gaps, words)
    ensures Words(Spread(gaps, words)) == words
    ensures Strip(Spread(gaps, words), ws) == Spread(gaps, Without(words, ws))
    decreases |words|
  {
    var g := gaps[0];
    GapIsSpace(gaps, words, 0);
    if words == [] {
      GapFirst(g, [], ws);
      assert g + [] == g;
    } else {
      var w, rest := words[0], Spread(gaps[1..], words[1..]);
      WordIsNoSpace(gaps, words);
      SpacedRest(gaps, words);
      WordsOfSpread(gaps[1..], words[1..], ws);
      RestStarts(gaps, words);
      SpreadIs(gaps, words);
      hide Spaced, IsSpace, Spread;
      GapFirst(g, w + rest, ws);
      WordsAfterRun(w, rest);
      assert (w + rest)[..|w|] == w && (w + rest)[|w|..] == rest && (w + rest)[0] == w[0];
      assert words == [w] + words[1..] && Without(words, ws)[1..] == Without(words[1..], ws);
      SpreadIs(gaps, Without(words, ws));
    }
  }

  lemma GapIsSpace(gaps: seq<Text>, words: seq<Text>, k: nat)
    requires Spaced(gaps, words) && k <= |words|
    ensures forall i :: 0 <= i < |gaps[k]| ==> IsSpace(gaps[k][i])
  {
    assert gaps[k] in gaps;
  }

  lemma WordIsNoSpace(gaps: seq<Text>, words: seq<Text>)
    requires Spaced(gaps, words) && words != []
    ensures words[0] != [] && forall i :: 0 <= i < |words[0]| ==> !IsSpace(words[0][i])
  {
    assert words[0] in words;
  }

  lemma SpreadIs(gaps: seq<Text>, words: seq<Text>)
    requires |gaps| == |words| + 1 && words != []
    ensures Spread(gaps, words) == gaps[0] + (words[0] + Spread(gaps[1..], words[1..]))
  {
  }

  lemma SpacedRest(gaps: seq<Text>, words: seq<Text>)
    requires Spaced(gaps, words) && words != []
    ensures Spaced(gaps[1..], words[1..])
  {
    assert forall g :: g in gaps[1..] ==> g in gaps;
    assert forall w :: w in words[1..] ==> w in words;
  }

  lemma RestStarts(gaps: seq<Text>, words: seq<Text>)
    requires Spaced(gaps, words) && words != []
    ensures var rest := Spread(gaps[1..], words[1..]); rest == [] || IsSpace(rest[0])
  {
    var g := gaps[1];
    GapIsSpace(gaps, words, 1);
    var rest := Spread(gaps[1..], words[1..]);
    assert g != [] ==> rest[0] == g[0];
  }

  /** So a value loses exactly the words that the expanded text of a removal names. */
  lemma RemovesNamedWords(s: Store, o: seq<string>, o': seq<string>, rk: Name -> nat, rk': Name -> nat, v: Name, add: seq<string>, t: Text,
                          gaps: seq<Text>, words: seq<Text>, gaps': seq<Text>, gone: seq<Text>)
    requires Sound(s.index) && Ranked(s, rk) && Operand(v) && WithoutCapitals(add) && (add == [] || forall c :: c in add ==> c in o')
    requires Ranked(SetVar(s, o, v + ["remove"] + add, t, false), rk')
    requires Spaced(gaps, words) && Value(s, o', rk, v) == Some(Spread(gaps, words))
    requires Spaced(gaps', gone) && Expand(s, o', rk, t) == Spread(gaps', gone)
    ensures var s' := SetVar(s, o, v + ["remove"] + add, t, false);
            Sound(s'.index) && Value(s', o', rk', v) ==
              Some(Spread(gaps, seq(|words|, i requires 0 <= i < |words| => if words[i] in gone then [] else words[i])))
  {
    hide Value, Expand, Ranked, Operand, SetVar, Raw, Spaced, WithoutCapitals;
    RemoveReads(s, o, o', rk, rk', v, add, t, false);
    WordsOfSpread(gaps', gone, {});
    WordsOfSpread(gaps, words, SeqSet(gone));
    assert Without(words, SeqSet(gone)) == seq(|words|, i requires 0 <= i < |words| => if words[i] in gone then [] else words[i]);
  }

  // ---- the override list ----

  /** Text without references. */
  function Chars(s: string): Text {
    seq(|s|, i requires 0 <= i < |s| => Ch(s[i]))
  }

  lemma {:induction false} RenderChars(s: string)
    ensures Render(Chars(s)) == s
  {
    if s != "" {
      RenderChars(s[1..]);
      assert Chars(s)[1..] == Chars(s[1..]);
    }
  }

  lemma {:induction false} RenderAppend(a: Text, b: Text)
    ensures Render(a + b) == Render(a) + Render(b)
  {
    if a == [] {
      assert a + b == b;
    } else {
      assert (a + b)[1..] == a[1..] + b;
      RenderAppend(a[1..], b);
    }
  }

  /** The text of the only reference n, between a and b. */
  function Around(a: string, n: Name, b: string): Text {
    Chars(a) + [Ref(n)] + Chars(b)
  }

  lemma RenderAround(a: string, n: Name, b: string)
    ensures Render(Around(a, n, b)) == a + ("${" + Join(n) + "}") + b
  {
    RenderChars(a);
    RenderChars(b);
    RenderAppend(Chars(a) + [Ref(n)], Chars(b));
    RenderAppend(Chars(a), [Ref(n)]);
    assert [Ref(n)][1..] == [];
    assert Render([Ref(n)]) == ("${" + Join(n) + "}") + "";
  }

  /** After a plain setVar of OVERRIDES to text in which all that is referred to is unset, it settles on that text, split at colons. */
  lemma PlainTextSettles(s: Store, o: seq<string>, rk: Name -> nat, t: Text)
    requires Sound(s.index)
    requires var s' := SetVar(s, o, OVERRIDES, t, false);
             Sound(s'.index) && Ranked(s', rk) && forall o', x :: Ref(x) in t ==> Value(s', o', rk, x) == None
    ensures Settle(SetVar(s, o, OVERRIDES, t, false), rk) == Some(Split(Render(t)))
  {
    var s' := SetVar(s, o, OVERRIDES, t, false);
    assert KeywordAt(OVERRIDES, 1).None?;
    PlainHasNoOps(s, o, OVERRIDES, t);
    forall o' ensures Next(s', rk, o') == Split(Render(t)) {
      SetVarReads(s, o, o', OVERRIDES, t);
      SettledStays(s', o', rk, t);
      hide Raw, Expand, SetVar, Ranked, Render, Split;
      assert Value(s', o', rk, OVERRIDES) == Some(t);
    }
    hide SetVar, Value, Ranked, Render, Split, Settle, Next;
    ConstantSettles(s', rk, Split(Render(t)));
  }

  lemma PlainHasNoOps(s: Store, o: seq<string>, v: Name, t: Text)
    requires Sound(s.index) && v != [] && KeywordAt(v, 1).None?
    ensures forall k :: OpsAt(SetVar(s, o, v, t, false), v, k) == []
  {
    ClearedFlags(s, o, v);
  }

  /** After a plain setVar of OVERRIDES to l, joined with colons, it settles on l. */
  lemma ListSettles(s: Store, o: seq<string>, rk: Name -> nat, l: seq<string>)
    requires Sound(s.index) && l != [] && forall c, i :: c in l && 0 <= i < |c| ==> c[i] != ':'
    requires Ranked(SetVar(s, o, OVERRIDES, Chars(Join(l)), false), rk)
    ensures var s' := SetVar(s, o, OVERRIDES, Chars(Join(l)), false);
            Sound(s'.index) && Settle(s', rk) == Some(l)
  {
    ApplySoundIff(s, o, DoSetVar(OVERRIDES, Chars(Join(l)), false));
    PlainTextSettles(s, o, rk, Chars(Join(l)));
    RenderChars(Join(l));
    SplitJoin(l);
  }

  /** A reference to an unset variable stands in it as it was written, at its place. */
  lemma UnsetStands(s: Store, o: seq<string>, rk: Name -> nat, a: string, n: Name, b: string, l: seq<string>)
    requires Sound(s.index) && l != [] && (forall c, i :: c in l && 0 <= i < |c| ==> c[i] != ':') && Join(l) == a + ("${" + Join(n) + "}") + b
    requires var s' := SetVar(s, o, OVERRIDES, Around(a, n, b), false);
             Sound(s'.index) && Ranked(s', rk) && forall o' :: Value(s', o', rk, n) == None
    ensures Settle(SetVar(s, o, OVERRIDES, Around(a, n, b), false), rk) == Some(l)
  {
    AroundIs(a, n, b, l);
    hide SetVar, Value, Settle, Ranked, Around, Split, Render;
    PlainTextSettles(s, o, rk, Around(a, n, b));
  }

  lemma AroundIs(a: string, n: Name, b: string, l: seq<string>)
    requires l != [] && (forall c, i :: c in l && 0 <= i < |c| ==> c[i] != ':') && Join(l) == a + ("${" + Join(n) + "}") + b
    ensures Split(Render(Around(a, n, b))) == l
    ensures forall x :: Ref(x) in Around(a, n, b) ==> x == n
  {
    RenderAround(a, n, b);
    SplitJoin(l);
  }

  // ---- flags ----

  /** setVarFlag: that flag of that variable reads as the text, and every other flag as before. */
  lemma SetVarFlagReads(s: Store, o: seq<string>, rk: Name -> nat, rk': Name -> nat, v: Name, f: Flag, t: Text)
    requires Sound(s.index) && Ranked(s, rk) && v != []
    requires var s' := SetVarFlag(s, v, f, t); Sound(s'.index) && Ranked(s', rk')
    ensures forall n, g ::
      FlagParseOf(SetVarFlag(s, v, f, t), o, rk', n, g).unexpanded == if n == v && g == f then Some(t) else FlagParseOf(s, o, rk, n, g).unexpanded
    ensures FlagParseOf(SetVarFlag(s, v, f, t), o, rk', v, f).value == Some(Expand(SetVarFlag(s, v, f, t), o, rk', t))
  {
    hide Expand, Ranked, Update;
    var s' := SetVarFlag(s, v, f, t);
    assert forall n :: n != v ==> FlagsAt(s', n) == FlagsAt(s, n);
  }

  /** delVarFlag: it is unset then, and every other flag reads as before. */
  lemma DelVarFlagReads(s: Store, o: seq<string>, rk: Name -> nat, rk': Name -> nat, v: Name, f: Flag)
    requires Sound(s.index) && Ranked(s, rk) && v != []
    requires var s' := DelVarFlag(s, v, f); Ranked(s', rk')
    ensures DelVarFlag(s, v, f).index == s.index
    ensures forall n, g ::
      FlagParseOf(DelVarFlag(s, v, f), o, rk', n, g).unexpanded == if n == v && g == f then None else FlagParseOf(s, o, rk, n, g).unexpanded
  {
    hide Expand, Ranked;
    var s' := DelVarFlag(s, v, f);
    assert forall n :: n != v ==> FlagsAt(s', n) == FlagsAt(s, n);
  }

  /** A weak default is what an unqualified variable reads as while it has no value, no operations and no other definitions. */
  lemma WeakDefaultReads(s: Store, o: seq<string>, x: string, t: Text)
    requires Sound(s.index) && Content !in FlagsAt(s, [x]).text && EntriesAt(s, [x]) == [] && forall k :: OpsAt(s, [x], k) == []
    ensures var s' := SetVarFlag(s, [x], DefaultVal, t);
            Sound(s'.index) && Raw(s', o, [x]) == Some(t) && RawIn(s', o, [x], true, false) == None
  {
    var s' := SetVarFlag(s, [x], DefaultVal, t);
    assert FlagsAt(s', [x]).ops == FlagsAt(s, [x]).ops && forall k :: OpsAt(s', [x], k) == OpsAt(s, [x], k);
    assert EntriesAt(s', [x]) == [];
    assert Chosen(s', o, [x]).None?;
    RawIs(s', o, [x], false);
    RawIs(s', o, [x], true);
  }

  // ---- plain writes and definitions by override ----

  /** n is the name of a definition of v by overrides that are in the list. */
  predicate Overridden(s: Store, o: seq<string>, v: Name, n: Name) {
    exists e :: e in EntriesAt(s, v) && e.r == n && (Join(e.o) in o || (|e.o| > 1 && forall c :: c in e.o ==> c in o))
  }

  lemma {:induction false} ActiveNamesAre(es: seq<Entry>, o: seq<string>)
    ensures forall a :: a in ActiveNames(es, o) <==> exists e :: e in es && Active(e.o, o) && e.r == a
  {
    if es != [] {
      var front, last := es[..|es| - 1], es[|es| - 1];
      ActiveNamesAre(front, o);
      assert es == front + [last];
      assert forall e :: e in es <==> e in front || e == last;
    }
  }

  lemma {:induction false} DelVarsAt(s: Store, vs: seq<Name>, n: Name)
    requires forall v :: v in vs ==> v != []
    ensures FlagsAt(DelVars(s, vs), n) == if n in vs then NO_FLAGS else FlagsAt(s, n)
    ensures n in vs || n !in s.index ==> n !in DelVars(s, vs).index
    decreases |vs|
  {
    if vs != [] {
      assert vs[0] in vs && forall v :: v in vs[1..] ==> v in vs;
      ForgetAt(s.index, vs[0], n);
      assert n in vs <==> n == vs[0] || n in vs[1..];
      hide Forget;
      DelVarsAt(DelVar(s, vs[0]), vs[1..], n);
    }
  }

  /**
   * A plain setVar(v, t), under the list o: v holds the text and no operations; of its definitions by override those
   * in effect are empty and read as unset, under any list, and all others stay, as does every other variable.
   */
  lemma PlainSetReads(s: Store, o: seq<string>, v: Name, t: Text)
    requires Sound(s.index) && v != [] && KeywordAt(v, 1).None?
    ensures var s' := SetVar(s, o, v, t, false);
            && Sound(s'.index) && FlagsAt(s', v) == Flags(FlagsAt(s, v).text[Content := t], map[]) && EntriesAt(s', v) == []
            && forall n :: n != v ==>
                 && FlagsAt(s', n) == (if Overridden(s, o, v, n) then NO_FLAGS else FlagsAt(s, n))
                 && (Overridden(s, o, v, n) ==> forall o' :: Raw(s', o', n) == None)
  {
    ApplySoundIff(s, o, DoSetVar(v, t, false));
    var s' := SetVar(s, o, v, t, false);
    var s1 := Cleared(s, o, v);
    ClearedFlags(s, o, v);
    ClearedSound(s, o, v);
    StoredAt(s1, v, t, v);
    hide SetVar, Cleared, Raw, Stored, Overridden;
    forall n | n != v
      ensures FlagsAt(s', n) == (if Overridden(s, o, v, n) then NO_FLAGS else FlagsAt(s, n))
      ensures Overridden(s, o, v, n) ==> forall o' :: Raw(s', o', n) == None
    {
      PlainSetAt(s, o, v, t, n);
    }
    PlainIs(s, o, v, t);
  }

  lemma PlainSetAt(s: Store, o: seq<string>, v: Name, t: Text, n: Name)
    requires Sound(s.index) && v != [] && KeywordAt(v, 1).None? && n != v
    ensures var s' := SetVar(s, o, v, t, false);
            && Sound(s'.index)
            && FlagsAt(s', n) == (if Overridden(s, o, v, n) then NO_FLAGS else FlagsAt(s, n))
            && (Overridden(s, o, v, n) ==> forall o' :: Raw(s', o', n) == None)
  {
    ApplySoundIff(s, o, DoSetVar(v, t, false));
    var s1 := Cleared(s, o, v);
    PlainIs(s, o, v, t);
    ClearedAt(s, o, v, n);
    StoredAt(s1, v, t, n);
    hide SetVar, Cleared, Raw, Stored, Overridden;
    if Overridden(s, o, v, n) {
      var e := OverriddenBy(s, o, v, n);
      ExtensionUnchanged(s, s1, v, t, e);
      forall o' ensures Raw(SetVar(s, o, v, t, false), o', n) == None {
        NothingThere(SetVar(s, o, v, t, false), o', n);
      }
    }
  }

  lemma PlainIs(s: Store, o: seq<string>, v: Name, t: Text)
    requires Sound(s.index) && v != [] && KeywordAt(v, 1).None?
    ensures SetVar(s, o, v, t, false) == Stored(Cleared(s, o, v), v, t)
  {
  }

  lemma NothingThere(s: Store, o: seq<string>, n: Name)
    requires Sound(s.index) && FlagsAt(s, n) == NO_FLAGS && EntriesAt(s, n) == []
    ensures Raw(s, o, n) == None
  {
    assert Chosen(s, o, n).None?;
    RawIs(s, o, n, false);
  }

  lemma StoredAt(s: Store, v: Name, t: Text, n: Name)
    requires v != []
    ensures var s' := Stored(s, v, t);
            && (n == v ==> FlagsAt(s', n) == FlagsAt(s, v).(text := FlagsAt(s, v).text[Content := t]))
            && (n != v ==> FlagsAt(s', n) == FlagsAt(s, n))
            && (v <= n ==> EntriesAt(s', n) == EntriesAt(s, n))
  {
    if |v| > 1 {
      UpdateAt(s.index, v, n);
    }
  }

  lemma OverriddenBy(s: Store, o: seq<string>, v: Name, n: Name) returns (e: Entry)
    requires Overridden(s, o, v, n)
    ensures e in EntriesAt(s, v) && e.r == n
  {
    e :| e in EntriesAt(s, v) && e.r == n;
  }

  lemma ExtensionUnchanged(s: Store, s1: Store, v: Name, t: Text, e: Entry)
    requires Sound(s.index) && e in EntriesAt(s, v) && v != [] && e.r !in s1.index
    ensures EntriesAt(Stored(s1, v, t), e.r) == []
  {
    assert v in s.index && SoundList(v, s.index[v]);
    StoredAt(s1, v, t, e.r);
  }

  lemma ClearedAt(s: Store, o: seq<string>, v: Name, n: Name)
    requires Sound(s.index) && v != [] && n != v
    ensures FlagsAt(Cleared(s, o, v), n) == if Overridden(s, o, v, n) then NO_FLAGS else FlagsAt(s, n)
    ensures Overridden(s, o, v, n) ==> n !in Cleared(s, o, v).index
  {
    if v in s.index {
      assert SoundList(v, s.index[v]);
      ActiveNamesLonger(v, s.index[v], o);
      ActiveNamesAre(s.index[v], o);
      DelVarsAt(DropOps(s, v), ActiveNames(s.index[v], o), n);
    }
  }

  /**
   * setVar on v:c makes v read as the text under every list with c, if c starts with a lower-case letter or a digit,
   * and changes nothing for v otherwise; v has no operations and no other definitions by override.
   */
  lemma QualifiedReads(s: Store, o: seq<string>, o': seq<string>, v: Name, c: string, t: Text)
    requires Sound(s.index) && v != [] && EntriesAt(s, v) == [] && OpsAt(s, v, Append) == [] == OpsAt(s, v, Prepend)
    requires c != "" && ColonFree(c) && AllColonFree(o') && KeywordAt(v + [c], 1).None?
    ensures var s' := SetVar(s, o, v + [c], t, false);
            Sound(s'.index) && Raw(s', o', v) ==
              if ('a' <= c[0] <= 'z' || '0' <= c[0] <= '9') && c in o' then Some(t) else Raw(s, o', v)
  {
    var w := v + [c];
    var s' := SetVar(s, o, w, t, false);
    SetVarReads(s, o, o', w, t);
    PlainSetAt(s, o, w, t, v);
    OnlyLonger(s, o, w, v);
    IndexOfQualified(s, o, v, c, t);
    hide SetVar, Overridden, Raw;
    OneDefinition(s', o', v, w, c);
    assert FlagsAt(s', v) == FlagsAt(s, v);
    NoDefinition(s, s', o', v);
  }

  /** With one definition, by the override c. */
  lemma OneDefinition(s: Store, o: seq<string>, v: Name, w: Name, c: string)
    requires Sound(s.index) && ColonFree(c) && AllColonFree(o) && OpsAt(s, v, Append) == [] == OpsAt(s, v, Prepend)
    ensures EntriesAt(s, v) == [Entry(w, [c])] && c in o && Raw(s, o, w).Some? ==> Raw(s, o, v) == Raw(s, o, w)
    ensures EntriesAt(s, v) == [Entry(w, [c])] && c !in o ==> Raw(s, o, v) == Own(s, v, false)
  {
    RawIs(s, o, v, false);
    var e := Entry(w, [c]);
    if EntriesAt(s, v) == [e] {
      if c in o {
        LastFirstOccurrenceWins([e], o, e);
        assert Chosen(s, o, v) == Some(w);
      } else {
        ChosenIsActive([e], o);
        assert Chosen(s, o, v).None?;
      }
    }
  }

  /** With none. */
  lemma NoDefinition(s: Store, s': Store, o: seq<string>, v: Name)
    requires Sound(s.index) && Sound(s'.index) && EntriesAt(s, v) == [] && FlagsAt(s', v) == FlagsAt(s, v)
    requires OpsAt(s, v, Append) == [] == OpsAt(s, v, Prepend)
    ensures Raw(s, o, v) == Own(s, v, false) == Own(s', v, false)
    ensures EntriesAt(s', v) == [] ==> Raw(s', o, v) == Own(s', v, false)
  {
    RawIs(s, o, v, false);
    RawIs(s', o, v, false);
    assert Chosen(s, o, v).None?;
    assert EntriesAt(s', v) == [] ==> Chosen(s', o, v).None?;
  }

  lemma OnlyLonger(s: Store, o: seq<string>, w: Name, v: Name)
    requires Sound(s.index) && |v| < |w|
    ensures !Overridden(s, o, w, v)
  {
    assert w in s.index ==> SoundList(w, s.index[w]);
  }

  lemma IndexOfQualified(s: Store, o: seq<string>, v: Name, c: string, t: Text)
    requires Sound(s.index) && v != [] && EntriesAt(s, v) == [] && c != "" && KeywordAt(v + [c], 1).None?
    ensures EntriesAt(SetVar(s, o, v + [c], t, false), v) ==
            if 'a' <= c[0] <= 'z' || '0' <= c[0] <= '9' then [Entry(v + [c], [c])] else []
  {
    var w := v + [c];
    assert w[|v|] == c && w[|v|..] == [c] && w[..|v|] == v;
    var s1 := Cleared(s, o, w);
    PlainIs(s, o, w, t);
    assert EntriesAt(s1, v) == [] by {
      if w in s.index {
        assert SoundList(w, s.index[w]);
        ActiveNamesLonger(w, s.index[w], o);
        StillEmpty(DropOps(s, w), ActiveNames(s.index[w], o), v);
      }
    }
    UpdateAt(s1.index, w, v);
  }

  lemma {:induction false} StillEmpty(s: Store, vs: seq<Name>, n: Name)
    requires EntriesAt(s, n) == [] && forall v :: v in vs ==> v != []
    ensures EntriesAt(DelVars(s, vs), n) == []
    decreases |vs|
  {
    if vs != [] {
      assert vs[0] in vs && forall v :: v in vs[1..] ==> v in vs;
      ForgetAt(s.index, vs[0], n);
      StillEmpty(DelVar(s, vs[0]), vs[1..], n);
    }
  }

  /** A plain setVar made while parsing only exchanges the text: operations and definitions by override stay. */
  lemma ParsingSetReads(s: Store, o: seq<string>, v: Name, t: Text)
    requires Sound(s.index) && v != [] && KeywordAt(v, 1).None?
    ensures var s' := SetVar(s, o, v, t, true);
            && Sound(s'.index) && FlagsAt(s', v) == Flags(FlagsAt(s, v).text[Content := t], FlagsAt(s, v).ops)
            && EntriesAt(s', v) == EntriesAt(s, v) && forall n :: n != v ==> FlagsAt(s', n) == FlagsAt(s, n)
  {
    ApplySoundIff(s, o, DoSetVar(v, t, true));
    forall n ensures n != v ==> FlagsAt(SetVar(s, o, v, t, true), n) == FlagsAt(s, n) {
      StoredAt(s, v, t, n);
    }
    StoredAt(s, v, t, v);
  }

  // ---- expansion ----

  /** A reference is replaced by the value at its place, or stays if the variable is unset; other text stays. */
  lemma ExpandedInPlace(s: Store, o: seq<string>, rk: Name -> nat, before: Text, n: Name, behind: Text)
    requires Sound(s.index) && Ranked(s, rk)
    ensures Expand(s, o, rk, before + [Ref(n)] + behind) ==
            var v := Value(s, o, rk, n);
            Expand(s, o, rk, before) + (if v.Some? then v.value else [Ref(n)]) + Expand(s, o, rk, behind)
    ensures !HasRef(before) ==> Expand(s, o, rk, before) == before
  {
    hide Value, Expand, Ranked;
    ExpandAppend(s, o, rk, before + [Ref(n)], behind);
    ExpandOne(s, o, rk, before, Ref(n));
    if !HasRef(before) {
      WithoutRefs(s, o, rk, before);
    }
  }
}
