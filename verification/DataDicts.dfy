// The mutable dictionaries and lists behind a datastore, with the sharing that createCopy sets up.
module DataDicts {
  import opened PyStrings
  import opened Options
  import opened DataTypes

  /** A Python list. */
  class ListObj<T(==)> {
    var items: seq<T>

    constructor (items: seq<T>)
      ensures this.items == items
    {
      this.items := items;
    }

    /** `list(self)` or `copy.copy(self)` */
    method Copy() returns (l: ListObj<T>)
      ensures fresh(l) && l.items == items
    {
      l := new ListObj(items);
    }

    method Append(x: T)
      modifies this
      ensures items == old(items) + [x]
    {
      items := items + [x];
    }

    method RemoveFirst(x: T)
      modifies this
      ensures items == WithoutFirst(old(items), x)
    {
      items := WithoutFirst(items, x);
    }
  }

  /** The dictionary of one variable. Its operation lists may be shared with other dictionaries. */
  class VarDict {
    var text: map<Flag, Text>
    var ops: map<Keyword, ListObj<Op>>
    /** The variable this dictionary is made for. */
    ghost const name: Name
    ghost var lists: set<ListObj<Op>>
    ghost var view: Flags

    /** view is what the dictionary holds, lists the list objects it refers to. */
    ghost predicate Valid()
      reads this, lists
    {
      && view.text == text && view.ops.Keys == ops.Keys
      && forall k :: k in ops ==> ops[k] in lists && ops[k].items == view.ops[k]
    }

    constructor Empty(ghost n: Name)
      ensures Valid() && name == n && view == NO_FLAGS && lists == {}
    {
      text, ops, lists, view, name := map[], map[], {}, NO_FLAGS, n;
    }

    /** `copy.copy(d)`: the lists are the same objects. */
    constructor Copy(ghost n: Name, d: VarDict)
      requires d.Valid()
      ensures Valid() && name == n && view == d.view && lists == d.lists
    {
      text, ops, lists, view, name := d.text, d.ops, d.lists, d.view, n;
    }

    method SetText(f: Flag, t: Text)
      requires Valid()
      modifies this
      ensures Valid() && lists == old(lists) && view == old(view).(text := old(view).text[f := t])
    {
      text := text[f := t];
      view := view.(text := text);
    }

    method DelText(f: Flag)
      requires Valid()
      modifies this
      ensures Valid() && lists == old(lists) && view == old(view).(text := old(view).text - {f})
    {
      text := text - {f};
      view := view.(text := text);
    }

    method SetOps(k: Keyword, l: ListObj<Op>)
      requires Valid()
      modifies this
      ensures Valid() && lists == old(lists) + {l}
      ensures view == old(view).(ops := old(view).ops[k := l.items])
    {
      ops := ops[k := l];
      view := view.(ops := view.ops[k := l.items]);
      lists := lists + {l};
    }

    method DropOps()
      requires Valid()
      modifies this
      ensures Valid() && lists == old(lists) && view == old(view).(ops := map[])
    {
      ops := map[];
      view := view.(ops := map[]);
    }

    /** Python's truth value of the dictionary. */
    predicate IsEmpty()
      requires Valid()
      reads this, lists
      ensures IsEmpty() <==> view == NO_FLAGS
    {
      assert ops == map[] <==> ops.Keys == {};
      assert view.ops == map[] <==> view.ops.Keys == {};
      text == map[] && ops == map[]
    }
  }

  /** `self.dict`: the variables set at one level, and under `_data` the level it was copied from. */
  class Layer {
    var vars: map<Name, VarDict>
    const data: Layer?
    ghost var Repr: set<object>
    /** The dictionaries made for this level; only these may be written. */
    ghost var own: set<VarDict>
    /** The variables that can be seen from this level: the nearest definition counts. */
    ghost var seen: map<Name, Flags>

    ghost predicate Holds(n: Name, d: VarDict)
      reads this, Repr
    {
      && d in Repr && (forall l :: l in d.lists ==> l in Repr) && d.Valid()
      && n in seen && seen[n] == d.view && d in own && d.name == n
    }

    ghost predicate Valid()
      reads this, Repr
      ensures Valid() ==> this in Repr
      decreases Repr
    {
      && this in Repr
      && (data != null ==> data in Repr && data.Repr <= Repr && this !in data.Repr && data.Valid())
      && (forall d :: d in own ==> d in Repr && (data != null ==> d !in data.Repr))
      && (forall n :: n in vars ==> Holds(n, vars[n]))
      && (forall n :: n in seen <==> n in vars || (data != null && n in data.seen))
      && (forall n :: n in seen && n !in vars ==> seen[n] == data.seen[n])
    }

    constructor (data: Layer?)
      requires data != null ==> data.Valid()
      ensures Valid() && this.data == data && vars == map[]
      ensures Repr == {this} + (if data == null then {} else data.Repr)
      ensures seen == if data == null then map[] else data.seen
      ensures own == {}
    {
      this.data := data;
      this.vars := map[];
      this.own := {};
      this.Repr := {this} + (if data == null then {} else data.Repr);
      this.seen := if data == null then map[] else data.seen;
    }

    /** `_findVar` */
    method Find(n: Name) returns (d: VarDict?)
      requires Valid()
      ensures d == null <==> n !in seen
      ensures d != null ==> d in Repr && d.Valid() && d.view == seen[n] && (forall l :: l in d.lists ==> l in Repr)
      ensures n in vars ==> d == vars[n]
    {
      var dest: Layer := this;
      while true
        invariant dest.Valid() && dest in Repr && dest.Repr <= Repr
        invariant n in seen <==> n in dest.seen
        invariant n in seen ==> seen[n] == dest.seen[n]
        invariant n in vars ==> dest == this
        decreases dest.Repr
      {
        if n in dest.vars {
          assert dest.Holds(n, dest.vars[n]);
          return dest.vars[n];
        }
        if dest.data == null {
          return null;
        }
        dest := dest.data;
      }
    }

    /** `self.dict[n] = d`, for a dictionary that nothing else holds. */
    method Install(n: Name, d: VarDict)
      requires Valid() && d !in Repr && d.Valid() && d.name == n && (forall l :: l in d.lists ==> l in Repr)
      modifies this
      ensures Valid() && vars == old(vars)[n := d]
      ensures Repr == old(Repr) + {d}
      ensures seen == old(seen)[n := d.view]
      ensures own == old(own) + {d}
    {
      own := own + {d};
      vars := vars[n := d];
      Repr := Repr + {d};
      assert data != null ==> data.Valid();
      forall m | m in vars && m != n ensures Holds(m, vars[m]) {
        assert old(Holds(m, vars[m]));
      }
      Refresh(n, d);
      assert Repr == old(Repr) + {d};
    }

    /** The ghost bookkeeping after the dictionary of n has changed. */
    ghost method Refresh(n: Name, d: VarDict)
      requires n in vars && vars[n] == d && d.name == n && d.Valid() && d in Repr && this in Repr
      requires data != null ==> data in Repr && data.Repr <= Repr && this !in data.Repr && data.Valid()
      requires d in own && forall e :: e in own ==> e in Repr && (data != null ==> e !in data.Repr)
      requires forall m :: m in vars && m != n ==> Holds(m, vars[m])
      requires forall m :: m != n ==> (m in seen <==> m in vars || (data != null && m in data.seen))
      requires forall m :: m in seen && m !in vars ==> seen[m] == data.seen[m]
      modifies this`Repr, this`seen
      ensures Valid() && Repr == old(Repr) + (set l: object | l in d.lists)
      ensures seen == old(seen)[n := d.view]
    {
      Repr := Repr + (set l: object | l in d.lists);
      seen := seen[n := d.view];
      assert data != null ==> data.Valid();
      assert Holds(n, d);
      forall m | m in vars && m != n ensures Holds(m, vars[m]) {
        assert old(Holds(m, vars[m]));
      }
    }

    /** `self.dict[n][f] = t` */
    method SetText(n: Name, f: Flag, t: Text)
      requires Valid() && n in vars
      modifies this`Repr, this`seen, vars[n]
      ensures Valid() && Repr == old(Repr) && n in old(seen)
      ensures seen == old(seen)[n := old(seen)[n].(text := old(seen)[n].text[f := t])]
    {
      var d := vars[n];
      assert Holds(n, d);
      d.SetText(f, t);
      forall m | m in vars && m != n ensures Holds(m, vars[m]) {
        assert old(Holds(m, vars[m]));
      }
      Refresh(n, d);
    }

    /** `del self.dict[n][f]`, if it is there */
    method DelText(n: Name, f: Flag)
      requires Valid() && n in vars
      modifies this`Repr, this`seen, vars[n]
      ensures Valid() && Repr == old(Repr) && n in old(seen)
      ensures seen == old(seen)[n := old(seen)[n].(text := old(seen)[n].text - {f})]
    {
      var d := vars[n];
      assert Holds(n, d);
      d.DelText(f);
      forall m | m in vars && m != n ensures Holds(m, vars[m]) {
        assert old(Holds(m, vars[m]));
      }
      Refresh(n, d);
    }

    /** `self.dict[n][k] = l` */
    method SetOps(n: Name, k: Keyword, l: ListObj<Op>)
      requires Valid() && n in vars
      modifies this`Repr, this`seen, vars[n]
      ensures Valid() && Repr == old(Repr) + {l} && n in old(seen)
      ensures seen == old(seen)[n := old(seen)[n].(ops := old(seen)[n].ops[k := l.items])]
    {
      var d := vars[n];
      assert Holds(n, d);
      d.SetOps(k, l);
      forall m | m in vars && m != n ensures Holds(m, vars[m]) {
        assert old(Holds(m, vars[m]));
      }
      Refresh(n, d);
    }

    /** deletes the operation lists of n */
    method DropOps(n: Name)
      requires Valid() && n in vars
      modifies this`Repr, this`seen, vars[n]
      ensures Valid() && Repr == old(Repr) && n in old(seen)
      ensures seen == old(seen)[n := old(seen)[n].(ops := map[])]
    {
      var d := vars[n];
      assert Holds(n, d);
      d.DropOps();
      forall m | m in vars && m != n ensures Holds(m, vars[m]) {
        assert old(Holds(m, vars[m]));
      }
      Refresh(n, d);
    }

    /** `_makeShadowCopy`: the flags are copied down to this level, but their lists stay shared. */
    method MakeShadowCopy(n: Name)
      requires Valid()
      modifies this
      ensures Valid() && n in vars && Repr == old(Repr) + {vars[n]} && own == old(own) + {vars[n]}
      ensures n in old(vars) ==> vars == old(vars)
      ensures n !in old(vars) ==> fresh(vars[n]) && vars == old(vars)[n := vars[n]]
      ensures seen == old(seen)[n := if n in old(seen) then old(seen)[n] else NO_FLAGS]
    {
      if n in vars {
        assert Holds(n, vars[n]);
        return;
      }
      var found := Find(n);
      var d: VarDict;
      if found != null && !found.IsEmpty() {
        d := new VarDict.Copy(n, found);
        assert d.view == seen[n];
      } else {
        d := new VarDict.Empty(n);
        assert n in seen ==> seen[n] == NO_FLAGS;
      }
      assert d.view == if n in seen then seen[n] else NO_FLAGS;
      Install(n, d);
    }
  }
}
