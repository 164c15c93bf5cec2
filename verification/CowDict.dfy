// A dictionary in levels that are copied on write, for values that are lists.
module CowDict {
  import opened Options

  type Key = string
  type Elem = string

  class ListObj {
    var items: seq<Elem>
    /** The level and key that the list belongs to. */
    ghost var owner: Option<(Level, Key)>

    constructor (items: seq<Elem>)
      ensures this.items == items && owner == None
    {
      this.items, owner := items, None;
    }
  }

  /** What a level holds itself. */
  datatype Plain = Plain(lists: map<Key, seq<Elem>>, marks: set<Key>)

  /**
   * One level, a class in the original: its attributes are the lists, under the key with a suffix, and the
   * marks of deletion, under the key itself. Attributes are looked up through the parents.
   */
  class Level {
    const parent: Level?
    const count: nat
    var lists: map<Key, ListObj>
    var marks: set<Key>

    constructor (parent: Level?)
      ensures this.parent == parent && lists == map[] && marks == {}
      ensures count == if parent == null then 0 else parent.count + 1
    {
      this.parent := parent;
      count := if parent == null then 0 else parent.count + 1;
      lists, marks := map[], {};
    }

    ghost function Objects(): set<ListObj>
      reads this
    {
      set k | k in lists :: lists[k]
    }

    ghost predicate Holds(p: Plain)
      reads this, Objects()
    {
      && marks == p.marks
      && (forall k :: k in lists <==> k in p.lists)
      && forall k :: k in lists ==> lists[k].items == p.lists[k] && lists[k].owner == Some((this, k))
    }
  }

  // ---- the same on plain values ----

  /** What every level holds itself. */
  type Plains = map<Level, Plain>

  /** Every level has its parent. */
  ghost predicate Closed(p: Plains) {
    forall l :: l in p && l.parent != null ==> l.parent in p && l.count == l.parent.count + 1
  }

  /** A mark of deletion is found, at a level or above. */
  ghost predicate Marked(p: Plains, l: Level, k: Key)
    requires l in p && Closed(p)
    decreases l.count
  {
    k in p[l].marks || (l.parent != null && Marked(p, l.parent, k))
  }

  /** The nearest list, at a level or above. */
  ghost function Nearest(p: Plains, l: Level, k: Key): Option<seq<Elem>>
    requires l in p && Closed(p)
    decreases l.count
  {
    if k in p[l].lists then Some(p[l].lists[k])
    else if l.parent != null then Nearest(p, l.parent, k)
    else None
  }

  /** `cls[key]`; None is a KeyError. The mark has another name than the list, and is looked for first. */
  ghost function Read(p: Plains, l: Level, k: Key): Option<seq<Elem>>
    requires l in p && Closed(p)
  {
    if Marked(p, l, k) then None else Nearest(p, l, k)
  }

  function PutList(p: Plains, l: Level, k: Key, items: seq<Elem>): Plains
    requires l in p
  {
    p[l := p[l].(lists := p[l].lists[k := items])]
  }

  function PutMark(p: Plains, l: Level, k: Key): Plains
    requires l in p
  {
    p[l := p[l].(marks := p[l].marks + {k})]
  }

  lemma PutSame(p: Plains, l: Level, k: Key)
    requires l in p && k in p[l].lists
    ensures PutList(p, l, k, p[l].lists[k]) == p
  {
    assert p[l].lists[k := p[l].lists[k]] == p[l].lists;
  }

  lemma PutTwice(p: Plains, l: Level, k: Key, a: seq<Elem>, b: seq<Elem>)
    requires l in p
    ensures l in PutList(p, l, k, a) && PutList(PutList(p, l, k, a), l, k, b) == PutList(p, l, k, b)
  {
    assert p[l].lists[k := a][k := b] == p[l].lists[k := b];
  }

  ghost predicate AtOrAbove(a: Level, l: Level)
    decreases l.count
  {
    a == l || (l.parent != null && l.count == l.parent.count + 1 && AtOrAbove(a, l.parent))
  }

  // ---- the levels on the heap ----

  class Tree {
    /** The levels, and what they hold. */
    ghost var plains: Plains

    ghost function Lists(): set<ListObj>
      reads this, plains.Keys
    {
      set l, o | l in plains && o in l.Objects() :: o
    }

    /** plains says what the levels hold, and no list belongs to two levels or two keys. */
    ghost predicate Valid()
      reads this, plains.Keys, Lists()
    {
      && Closed(plains)
      && forall l :: l in plains ==> l.Holds(plains[l])
    }

    constructor ()
      ensures plains == map[] && Valid()
    {
      plains := map[];
    }

    /** A first level. */
    method Root() returns (l: Level)
      requires Valid()
      modifies this
      ensures Valid() && fresh(l) && l.parent == null
      ensures plains == old(plains)[l := Plain(map[], {})]
    {
      l := new Level(null);
      plains := plains[l := Plain(map[], {})];
    }

    /** `cow()`: a level below, which starts empty. */
    method Cow(parent: Level) returns (l: Level)
      requires Valid() && parent in plains
      modifies this
      ensures Valid() && fresh(l) && l.parent == parent
      ensures plains == old(plains)[l := Plain(map[], {})]
    {
      l := new Level(parent);
      plains := plains[l := Plain(map[], {})];
    }

    /** `cls[key] = value` for a list that no level has. */
    method SetItem(l: Level, k: Key, value: ListObj)
      requires Valid() && l in plains && value.owner == None
      modifies this, l`lists, value`owner
      ensures Valid() && l.lists == old(l.lists)[k := value]
      ensures plains == old(PutList(plains, l, k, value.items))
    {
      ghost var before := plains;
      plains := PutList(plains, l, k, value.items);
      value.owner := Some((l, k));
      l.lists := l.lists[k := value];
      forall m | m in plains ensures m.Holds(plains[m]) {
        assert old(m.Holds(before[m]));
      }
    }

    /** `del cls[key]` */
    method DelItem(l: Level, k: Key)
      requires Valid() && l in plains
      modifies this, l`marks
      ensures Valid()
      ensures plains == old(PutMark(plains, l, k))
    {
      plains := PutMark(plains, l, k);
      l.marks := l.marks + {k};
    }

    /** `getattr(cls, key)` for a mark. */
    method FindMark(l: Level, k: Key) returns (found: bool)
      requires Valid() && l in plains
      ensures found == Marked(plains, l, k)
    {
      var at: Level? := l;
      while at != null
        invariant at != null ==> at in plains && (Marked(plains, l, k) <==> Marked(plains, at, k))
        invariant at == null ==> !Marked(plains, l, k)
        decreases if at == null then 0 else at.count + 1
      {
        if k in at.marks {
          return true;
        }
        at := at.parent;
      }
      found := false;
    }

    /** `getattr(cls, nkey)` for a list. */
    method FindList(l: Level, k: Key) returns (at: Level?)
      requires Valid() && l in plains
      ensures at == null ==> Nearest(plains, l, k).None?
      ensures at != null ==> at in plains && AtOrAbove(at, l) && k in at.lists && Nearest(plains, l, k) == Some(at.lists[k].items)
      ensures at != null && k in l.lists ==> at == l
    {
      at := l;
      while at != null && k !in at.lists
        invariant at != null ==> at in plains && AtOrAbove(at, l) && Nearest(plains, l, k) == Nearest(plains, at, k)
        invariant at == null ==> Nearest(plains, l, k).None?
        invariant k in l.lists ==> at == l
        decreases if at == null then 0 else at.count + 1
      {
        if at.parent != null {
          AboveParent(at, l);
        }
        at := at.parent;
      }
    }

    /** The level that a read is served from; null for a KeyError. */
    method Find(l: Level, k: Key) returns (at: Level?)
      requires Valid() && l in plains
      ensures at == null ==> Read(plains, l, k) == None
      ensures at != null ==> at in plains && k in at.lists && Read(plains, l, k) == Some(at.lists[k].items)
      ensures at != null && k in l.lists ==> at == l
    {
      var marked := FindMark(l, k);
      if marked {
        return null;
      }
      at := FindList(l, k);
    }

    /** `cls.__getreadonly__(key)`: changes nothing, and copies nothing. */
    method GetReadOnly(l: Level, k: Key) returns (value: Option<ListObj>)
      requires Valid() && l in plains
      ensures Read(plains, l, k) == if value.Some? then Some(value.value.items) else None
      ensures value.Some? ==> value.value in Lists()
    {
      var at := Find(l, k);
      if at == null {
        return None;
      }
      assert at.lists[k] in at.Objects();
      value := Some(at.lists[k]);
    }

    /** `cls[key]`: a list found further up is copied to this level. No read changes. */
    method GetItem(l: Level, k: Key) returns (value: Option<ListObj>)
      requires Valid() && l in plains
      modifies this, l`lists
      ensures Valid()
      ensures old(Read(plains, l, k)) == if value.Some? then Some(value.value.items) else None
      ensures plains == if value.Some? then old(PutList(plains, l, k, Read(plains, l, k).value)) else old(plains)
      ensures value.Some? ==> k in l.lists && l.lists[k] == value.value
      ensures value.Some? ==> if k in old(l.lists) then l.lists == old(l.lists) else fresh(value.value)
    {
      hide PutList, Read;
      var at := Find(l, k);
      if at == null {
        return None;
      }
      if at == l {
        PutSame(plains, l, k);
        return Some(l.lists[k]);
      }
      var items := at.lists[k].items;
      var copy := new ListObj(items);
      SetItem(l, k, copy);
      value := Some(copy);
    }

    /** `cls[key].append(x)`: in place, in the list of this level; ok is false for the KeyError. */
    method Append(l: Level, k: Key, x: Elem) returns (ok: bool)
      requires Valid() && l in plains
      modifies this, l`lists, Lists()
      ensures Valid() && (ok <==> old(Read(plains, l, k)).Some?)
      ensures plains == if ok then old(PutList(plains, l, k, Read(plains, l, k).value + [x])) else old(plains)
    {
      hide Read, PutList;
      ghost var p := plains;
      assert k in l.lists ==> l.lists[k] in l.Objects();
      var value := GetItem(l, k);
      if value.None? {
        return false;
      }
      var list := value.value;
      PutTwice(p, l, k, list.items, list.items + [x]);
      Extend(l, k, list, x);
      ok := true;
    }

    /** `list.append(x)` */
    method Extend(l: Level, k: Key, list: ListObj, x: Elem)
      requires Valid() && l in plains && k in l.lists && l.lists[k] == list
      modifies this, list`items
      ensures Valid() && plains == old(PutList(plains, l, k, list.items + [x]))
    {
      ghost var before := plains;
      list.items := list.items + [x];
      plains := PutList(plains, l, k, list.items);
      forall m | m in plains ensures m.Holds(plains[m]) {
        assert old(m.Holds(before[m]));
      }
    }
  }

  lemma {:induction false} AboveParent(a: Level, l: Level)
    requires AtOrAbove(a, l) && a.parent != null && a.count == a.parent.count + 1
    ensures AtOrAbove(a.parent, l)
    decreases l.count
  {
    if a != l {
      AboveParent(a, l.parent);
    }
  }

  // ---- what a level shows of the others ----

  /** What is read at a level depends only on what it and the levels above it hold. */
  lemma {:induction false} ReadDependsOnAbove(p: Plains, q: Plains, l: Level, k: Key)
    requires Closed(p) && Closed(q) && l in p && l in q
    requires forall a :: AtOrAbove(a, l) && a in p ==> a in q && p[a] == q[a]
    ensures Marked(p, l, k) == Marked(q, l, k) && Nearest(p, l, k) == Nearest(q, l, k) && Read(p, l, k) == Read(q, l, k)
    decreases l.count
  {
    assert AtOrAbove(l, l);
    if l.parent != null {
      forall a | AtOrAbove(a, l.parent) && a in p ensures AtOrAbove(a, l) {
      }
      ReadDependsOnAbove(p, q, l.parent, k);
    }
  }

  /** What clients do with one level. */
  datatype Op =
    | Set(l: Level, k: Key, items: seq<Elem>)
    | Delete(l: Level, k: Key)
    | Append(l: Level, k: Key, x: Elem)
    | Get(l: Level, k: Key)
    | GetReadOnly(l: Level, k: Key)

  /** The contracts of the methods of Tree. */
  ghost function Apply(p: Plains, op: Op): Plains
    requires Closed(p) && op.l in p
    ensures Closed(Apply(p, op))
    ensures Apply(p, op).Keys == p.Keys
    ensures forall l :: l in p && l != op.l ==> Apply(p, op)[l] == p[l]
  {
    match op
    case Set(l, k, items) => PutList(p, l, k, items)
    case Delete(l, k) => PutMark(p, l, k)
    case Append(l, k, x) => if Read(p, l, k).Some? then PutList(p, l, k, Read(p, l, k).value + [x]) else p
    case Get(l, k) => if Read(p, l, k).Some? then PutList(p, l, k, Read(p, l, k).value) else p
    case GetReadOnly(l, k) => p
  }

  ghost function ApplyAll(p: Plains, ops: seq<Op>): Plains
    requires Closed(p) && forall i :: 0 <= i < |ops| ==> ops[i].l in p
    decreases |ops|
  {
    if ops == [] then p
    else
      assert forall i :: 0 <= i < |ops[1..]| ==> ops[1..][i] == ops[i + 1];
      ApplyAll(Apply(p, ops[0]), ops[1..])
  }

  /**
   * Whatever is done at some levels, by assignment or in place through what a read gave, nothing changes at
   * a level that none of them is at or above: at ancestors, siblings and their descendants.
   */
  lemma {:induction false} OthersUnchanged(p: Plains, ops: seq<Op>, l: Level, k: Key)
    requires Closed(p) && l in p && forall i :: 0 <= i < |ops| ==> ops[i].l in p && !AtOrAbove(ops[i].l, l)
    ensures var q := ApplyAll(p, ops);
            Closed(q) && l in q && Read(q, l, k) == Read(p, l, k)
    decreases |ops|
  {
    if ops != [] {
      var q := Apply(p, ops[0]);
      ReadDependsOnAbove(p, q, l, k);
      assert forall i :: 0 <= i < |ops[1..]| ==> ops[1..][i] == ops[i + 1];
      OthersUnchanged(q, ops[1..], l, k);
    }
  }

  /** Reading changes no read, at any level, even if it copied. */
  lemma {:induction false} ReadingChangesNothing(p: Plains, op: Op, l: Level, k: Key)
    requires Closed(p) && op.l in p && l in p && (op.Get? || op.GetReadOnly?)
    ensures Read(Apply(p, op), l, k) == Read(p, l, k)
    ensures Marked(Apply(p, op), l, k) == Marked(p, l, k)
    ensures !Marked(p, op.l, op.k) ==> Nearest(Apply(p, op), l, k) == Nearest(p, l, k)
    decreases l.count
  {
    if l.parent != null {
      ReadingChangesNothing(p, op, l.parent, k);
    }
  }

  /** What is written is read, at the same level and at a level below that holds nothing yet. */
  lemma WriteIsRead(p: Plains, l: Level, k: Key, items: seq<Elem>, below: Level)
    requires Closed(p) && l in p && below in p && (below == l || (below.parent == l && p[below] == Plain(map[], {})))
    ensures Read(PutList(p, l, k, items), below, k) == if Marked(p, l, k) then None else Some(items)
  {
    var q := PutList(p, l, k, items);
    assert Closed(q) && Nearest(q, l, k) == Some(items);
    MarkedStays(p, l, k, items, below);
    if below != l {
      assert q[below] == p[below];
    }
  }

  lemma {:induction false} MarkedStays(p: Plains, l: Level, k: Key, items: seq<Elem>, m: Level)
    requires Closed(p) && l in p && m in p
    ensures Marked(PutList(p, l, k, items), m, k) == Marked(p, m, k)
    decreases m.count
  {
    if m.parent != null {
      MarkedStays(p, l, k, items, m.parent);
    }
  }

  // ---- a stack of dictionaries ----

  /** What a plain dictionary at each level would hold: what was last assigned there, or that it was deleted. */
  datatype Entry = Deleted | Items(items: seq<Elem>)
  type Dicts = map<Level, map<Key, Entry>>

  /** The nearest level where the key was assigned or deleted decides. */
  ghost function Expected(e: Dicts, l: Level, k: Key): Option<seq<Elem>>
    decreases l.count
  {
    if l in e && k in e[l] then (if e[l][k].Deleted? then None else Some(e[l][k].items))
    else if l.parent != null && l.parent.count < l.count then Expected(e, l.parent, k)
    else None
  }

  /** What the operations do to such dictionaries: a read, with or without a copy, does nothing. */
  ghost function Plainly(e: Dicts, op: Op): Dicts
    requires op.l in e
    ensures Plainly(e, op).Keys == e.Keys
  {
    match op
    case Set(l, k, items) => e[l := e[l][k := Items(items)]]
    case Delete(l, k) => e[l := e[l][k := Deleted]]
    case Append(l, k, x) => if Expected(e, l, k).Some? then e[l := e[l][k := Items(Expected(e, l, k).value + [x])]] else e
    case Get(l, k) => e
    case GetReadOnly(l, k) => e
  }

  ghost predicate Agrees(p: Plains, e: Dicts)
    requires Closed(p)
  {
    forall l, k :: l in p ==> Read(p, l, k) == Expected(e, l, k)
  }

  /** What was assigned is held as a list, what was deleted is marked, and marks are only where something was. */
  ghost predicate Kept(p: Plains, e: Dicts) {
    && Closed(p) && e.Keys == p.Keys
    && (forall l, k :: l in p && k in e[l] ==> if e[l][k].Items? then k in p[l].lists else k in p[l].marks)
    && (forall l, k :: l in p && k in p[l].marks ==> k in e[l])
  }

  /** From m up to l, without l, the key was neither assigned nor deleted. */
  ghost predicate Untouched(e: Dicts, m: Level, l: Level, k: Key)
    decreases m.count
  {
    m == l || (m in e && k !in e[m] && m.parent != null && m.count == m.parent.count + 1 && Untouched(e, m.parent, l, k))
  }

  /** A level below l holds a copy of the list that l shows. */
  ghost predicate CopiedBelow(p: Plains, e: Dicts, l: Level, k: Key) {
    exists m :: m in p && m != l && Untouched(e, m, l, k) && k in p[m].lists
  }

  ghost predicate AssignedBelow(e: Dicts, l: Level, k: Key) {
    exists m :: m in e && m != l && AtOrAbove(l, m) && k in e[m] && e[m][k].Items?
  }

  /** Before the operation: will the levels no longer read as dictionaries would? */
  ghost predicate Diverges(p: Plains, e: Dicts, op: Op)
    requires Closed(p) && op.l in p
  {
    match op
    case Set(l, k, items) => Marked(p, l, k) || (CopiedBelow(p, e, l, k) && Read(p, l, k) != Some(items))
    case Append(l, k, x) => Read(p, l, k).Some? && CopiedBelow(p, e, l, k)
    case Delete(l, k) => AssignedBelow(e, l, k)
    case _ => false
  }

  // ---- assignment ----

  /** From m up to l, without l, there is no list. */
  ghost predicate NoList(p: Plains, m: Level, l: Level, k: Key)
    requires Closed(p) && m in p
    decreases m.count
  {
    m == l || (k !in p[m].lists && m.parent != null && NoList(p, m.parent, l, k))
  }

  lemma {:induction false} UntouchedIsAbove(e: Dicts, m: Level, l: Level, k: Key)
    requires Untouched(e, m, l, k)
    ensures AtOrAbove(l, m)
    ensures l in e ==> Expected(e, m, k) == Expected(e, l, k)
    decreases m.count
  {
    if m != l {
      UntouchedIsAbove(e, m.parent, l, k);
    }
  }

  /** Without a trace of the key there is no mark either; with one there is a list, or a mark. */
  lemma {:induction false} TracesAreHeld(p: Plains, e: Dicts, m: Level, l: Level, k: Key)
    requires Kept(p, e) && m in p && l in p && AtOrAbove(l, m)
    ensures Untouched(e, m, l, k) ==> Marked(p, m, k) == Marked(p, l, k)
    ensures !Untouched(e, m, l, k) && !Marked(p, m, k) ==> !NoList(p, m, l, k)
    decreases m.count
  {
    if m != l {
      TracesAreHeld(p, e, m.parent, l, k);
    }
  }

  /** What an assignment at l does to each level. */
  lemma {:induction false} AfterSet(p: Plains, e: Dicts, l: Level, k: Key, items: seq<Elem>, m: Level, j: Key)
    requires Kept(p, e) && m in p && l in p
    ensures var q, f := PutList(p, l, k, items), e[l := e[l][k := Items(items)]];
            && Closed(q) && Marked(q, m, j) == Marked(p, m, j)
            && Nearest(q, m, j) == (if j == k && AtOrAbove(l, m) && NoList(p, m, l, k) then Some(items) else Nearest(p, m, j))
            && Expected(f, m, j) == (if j == k && AtOrAbove(l, m) && Untouched(e, m, l, k) then Some(items) else Expected(e, m, j))
    decreases m.count
  {
    if m.parent != null {
      AfterSet(p, e, l, k, items, m.parent, j);
    }
  }

  lemma {:induction false} SetAgreesIff(p: Plains, e: Dicts, l: Level, k: Key, items: seq<Elem>)
    requires Kept(p, e) && Agrees(p, e) && l in p
    ensures var q, f := PutList(p, l, k, items), e[l := e[l][k := Items(items)]];
            Kept(q, f) && (Agrees(q, f) <==> !Diverges(p, e, Set(l, k, items)))
  {
    var q, f := PutList(p, l, k, items), e[l := e[l][k := Items(items)]];
    AfterSet(p, e, l, k, items, l, k);
    if Diverges(p, e, Set(l, k, items)) {
      if !Marked(p, l, k) {
        var m :| m in p && m != l && Untouched(e, m, l, k) && k in p[m].lists;
        UntouchedIsAbove(e, m, l, k);
        TracesAreHeld(p, e, m, l, k);
        AfterSet(p, e, l, k, items, m, k);
        assert Read(q, m, k) == Read(p, m, k) == Expected(e, m, k) == Read(p, l, k);
        assert Read(q, m, k) != Expected(f, m, k);
      } else {
        assert Read(q, l, k) != Expected(f, l, k);
      }
    } else {
      forall m, j | m in p ensures Read(q, m, j) == Expected(f, m, j) {
        SetAgreesAt(p, e, l, k, items, m, j);
      }
    }
  }

  lemma {:induction false} SetAgreesAt(p: Plains, e: Dicts, l: Level, k: Key, items: seq<Elem>, m: Level, j: Key)
    requires Kept(p, e) && Agrees(p, e) && l in p && m in p && !Diverges(p, e, Set(l, k, items))
    ensures var q, f := PutList(p, l, k, items), e[l := e[l][k := Items(items)]];
            Closed(q) && Read(q, m, j) == Expected(f, m, j)
  {
    AfterSet(p, e, l, k, items, m, j);
    assert Read(p, m, j) == Expected(e, m, j);
    if j == k && AtOrAbove(l, m) {
      TracesAreHeld(p, e, m, l, k);
      if Untouched(e, m, l, k) {
        UntouchedIsAbove(e, m, l, k);
        assert Read(p, l, k) == Expected(e, l, k);
        HolderBelow(p, e, m, l, k);
      }
    }
  }

  /** A list on the way up to l is a copy. */
  lemma {:induction false} HolderBelow(p: Plains, e: Dicts, m: Level, l: Level, k: Key)
    requires Kept(p, e) && m in p && l in p && Untouched(e, m, l, k)
    ensures !NoList(p, m, l, k) ==> CopiedBelow(p, e, l, k)
    decreases m.count
  {
    if m != l && k !in p[m].lists {
      HolderBelow(p, e, m.parent, l, k);
    }
  }

  // ---- deletion ----

  lemma {:induction false} AfterDelete(p: Plains, e: Dicts, l: Level, k: Key, m: Level, j: Key)
    requires Kept(p, e) && m in p && l in p
    ensures var q, f := PutMark(p, l, k), e[l := e[l][k := Deleted]];
            && Closed(q) && Marked(q, m, j) == (Marked(p, m, j) || (j == k && AtOrAbove(l, m)))
            && Nearest(q, m, j) == Nearest(p, m, j)
            && Expected(f, m, j) == (if j == k && AtOrAbove(l, m) && Untouched(e, m, l, k) then None else Expected(e, m, j))
    decreases m.count
  {
    if m.parent != null {
      AfterDelete(p, e, l, k, m.parent, j);
    }
  }

  /** A value that dictionaries would show, found before l, was assigned below l. */
  lemma {:induction false} ExpectedIsAssigned(e: Dicts, m: Level, l: Level, k: Key)
    requires AtOrAbove(l, m) && !Untouched(e, m, l, k) && Expected(e, m, k).Some?
    requires forall a :: AtOrAbove(a, m) ==> a in e
    ensures AssignedBelow(e, l, k)
    decreases m.count
  {
    if k !in e[m] {
      forall a | AtOrAbove(a, m.parent) ensures a in e {
        assert AtOrAbove(a, m);
      }
      ExpectedIsAssigned(e, m.parent, l, k);
    }
  }

  lemma {:induction false} AboveIsThere(p: Plains, m: Level)
    requires Closed(p) && m in p
    ensures forall a :: AtOrAbove(a, m) ==> a in p
    decreases m.count
  {
    if m.parent != null {
      AboveIsThere(p, m.parent);
    }
  }

  lemma {:induction false} DeleteAgreesIff(p: Plains, e: Dicts, l: Level, k: Key)
    requires Kept(p, e) && Agrees(p, e) && l in p
    ensures var q, f := PutMark(p, l, k), e[l := e[l][k := Deleted]];
            Kept(q, f) && (Agrees(q, f) <==> !Diverges(p, e, Delete(l, k)))
  {
    var q, f := PutMark(p, l, k), e[l := e[l][k := Deleted]];
    AfterDelete(p, e, l, k, l, k);
    if AssignedBelow(e, l, k) {
      var m :| m in e && m != l && AtOrAbove(l, m) && k in e[m] && e[m][k].Items?;
      AfterDelete(p, e, l, k, m, k);
      assert Read(q, m, k) != Expected(f, m, k);
    } else {
      forall m, j | m in p ensures Read(q, m, j) == Expected(f, m, j) {
        AfterDelete(p, e, l, k, m, j);
        assert Read(p, m, j) == Expected(e, m, j);
        if j == k && AtOrAbove(l, m) && !Untouched(e, m, l, k) && Expected(e, m, k).Some? {
          AboveIsThere(p, m);
          ExpectedIsAssigned(e, m, l, k);
          assert false;
        }
      }
    }
  }

  // ---- over whole runs ----

  /** One operation keeps the agreement with plain dictionaries exactly if it does not diverge. */
  lemma {:induction false} StepAgreesIff(p: Plains, e: Dicts, op: Op)
    requires Kept(p, e) && Agrees(p, e) && op.l in p
    ensures Kept(Apply(p, op), Plainly(e, op))
    ensures Agrees(Apply(p, op), Plainly(e, op)) <==> !Diverges(p, e, op)
  {
    assert Read(p, op.l, op.k) == Expected(e, op.l, op.k);
    match op {
      case Set(l, k, items) => SetAgreesIff(p, e, l, k, items);
      case Delete(l, k) => DeleteAgreesIff(p, e, l, k);
      case Append(l, k, x) =>
        if Read(p, l, k).Some? {
          SetAgreesIff(p, e, l, k, Read(p, l, k).value + [x]);
        }
      case _ =>
        forall l, k | l in p ensures Read(Apply(p, op), l, k) == Read(p, l, k) {
          ReadingChangesNothing(p, op, l, k);
        }
    }
  }

  /** No operation of the run diverges at its moment. */
  ghost predicate NoneDiverges(p: Plains, e: Dicts, ops: seq<Op>)
    requires Closed(p) && e.Keys == p.Keys && forall i :: 0 <= i < |ops| ==> ops[i].l in p
    decreases |ops|
  {
    ops == [] ||
    (assert forall i :: 0 <= i < |ops[1..]| ==> ops[1..][i] == ops[i + 1];
     !Diverges(p, e, ops[0]) && NoneDiverges(Apply(p, ops[0]), Plainly(e, ops[0]), ops[1..]))
  }

  /** All levels read as dictionaries would, at every moment of the run. */
  ghost predicate AlwaysAgrees(p: Plains, e: Dicts, ops: seq<Op>)
    requires Closed(p) && e.Keys == p.Keys && forall i :: 0 <= i < |ops| ==> ops[i].l in p
    decreases |ops|
  {
    Agrees(p, e) &&
    (ops == [] ||
     (assert forall i :: 0 <= i < |ops[1..]| ==> ops[1..][i] == ops[i + 1];
      AlwaysAgrees(Apply(p, ops[0]), Plainly(e, ops[0]), ops[1..])))
  }

  /**
   * Over any run the levels read as a stack of dictionaries would, exactly if no operation assigns below a
   * deletion or where the key was deleted, deletes above an assignment, or changes a list above a level that
   * has copied it.
   */
  lemma {:induction false} ReadsAsDictionariesIff(p: Plains, e: Dicts, ops: seq<Op>)
    requires Kept(p, e) && Agrees(p, e) && forall i :: 0 <= i < |ops| ==> ops[i].l in p
    ensures AlwaysAgrees(p, e, ops) <==> NoneDiverges(p, e, ops)
    decreases |ops|
  {
    if ops != [] {
      assert forall i :: 0 <= i < |ops[1..]| ==> ops[1..][i] == ops[i + 1];
      StepAgreesIff(p, e, ops[0]);
      if !Diverges(p, e, ops[0]) {
        ReadsAsDictionariesIff(Apply(p, ops[0]), Plainly(e, ops[0]), ops[1..]);
      }
    }
  }

  /** Levels that hold nothing agree with empty dictionaries. */
  lemma {:induction false} EmptyAgrees(p: Plains, e: Dicts)
    requires Closed(p) && e.Keys == p.Keys && forall l :: l in p ==> p[l] == Plain(map[], {}) && e[l] == map[]
    ensures Kept(p, e) && Agrees(p, e)
  {
    forall l, k | l in p ensures Read(p, l, k) == Expected(e, l, k) {
      EmptyReads(p, e, l, k);
    }
  }

  lemma {:induction false} EmptyReads(p: Plains, e: Dicts, l: Level, k: Key)
    requires Closed(p) && l in p && e.Keys == p.Keys && forall m :: m in p ==> p[m] == Plain(map[], {}) && e[m] == map[]
    ensures !Marked(p, l, k) && Nearest(p, l, k) == None == Expected(e, l, k)
    decreases l.count
  {
    if l.parent != null {
      EmptyReads(p, e, l.parent, k);
    }
  }

  /** For instance, a level that has read a list does not see that it is replaced above. */
  lemma {:induction false} StaleCopy(p: Plains, e: Dicts, base: Level, child: Level, k: Key, a: seq<Elem>, b: seq<Elem>)
    requires Kept(p, e) && Agrees(p, e) && base in p && child in p && child.parent == base && a != b
    requires k !in e[child] && !Marked(p, base, k) && k !in p[child].lists
    ensures var q, f := Apply(p, Set(base, k, a)), Plainly(e, Set(base, k, a));
            Read(q, child, k) == Some(a) && Diverges(Apply(q, Get(child, k)), f, Set(base, k, b))
  {
    var q, f := Apply(p, Set(base, k, a)), Plainly(e, Set(base, k, a));
    AfterSet(p, e, base, k, a, child, k);
    AfterSet(p, e, base, k, a, base, k);
    assert NoList(p, child, base, k) by { assert NoList(p, base, base, k); }
    assert Untouched(e, base, base, k) && Untouched(e, child, base, k);
    TracesAreHeld(p, e, child, base, k);
    assert AtOrAbove(base, base) && AtOrAbove(base, child);
    var r := Apply(q, Get(child, k));
    ReadingChangesNothing(q, Get(child, k), base, k);
    assert k in r[child].lists && Untouched(f, base, base, k) && Untouched(f, child, base, k);
    assert CopiedBelow(r, f, base, k);
  }
}
