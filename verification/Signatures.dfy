// What a task's signature is computed from: its own value, and all the variables it depends on.
module Signatures {
  import opened Options

  type Var = string
  type Val = string

  // ---- the order of names ----

  predicate Before(a: string, b: string) {
    b != [] && (a == [] || a[0] < b[0] || (a[0] == b[0] && Before(a[1..], b[1..])))
  }

  lemma {:induction false} BeforeTotal(a: string, b: string)
    ensures a == b || Before(a, b) || Before(b, a)
    ensures !(Before(a, b) && Before(b, a))
    decreases |a|
  {
    if a != [] && b != [] {
      BeforeTotal(a[1..], b[1..]);
      assert a == [a[0]] + a[1..] && b == [b[0]] + b[1..];
    }
  }

  /** The order of strings: at the first difference the smaller character comes first, and a beginning before what it begins. */
  lemma {:induction false} BeforeIff(a: string, b: string)
    ensures Before(a, b) <==>
      (a < b) || exists k :: 0 <= k < |a| && k < |b| && a[..k] == b[..k] && a[k] < b[k]
    decreases |a|
  {
    if a != [] && b != [] {
      BeforeIff(a[1..], b[1..]);
      assert a == [a[0]] + a[1..] && b == [b[0]] + b[1..];
      if k :| 0 <= k < |a[1..]| && k < |b[1..]| && a[1..][..k] == b[1..][..k] && a[1..][k] < b[1..][k] && a[0] == b[0] {
        assert a[..k + 1] == [a[0]] + a[1..][..k] && b[..k + 1] == [b[0]] + b[1..][..k];
        assert a[..k + 1] == b[..k + 1] && a[k + 1] < b[k + 1];
      }
      if k :| 0 < k < |a| && k < |b| && a[..k] == b[..k] && a[k] < b[k] {
        assert a[0] == a[..k][0] == b[..k][0] == b[0];
        assert a[1..][..k - 1] == a[..k][1..] == b[..k][1..] == b[1..][..k - 1];
        assert a[1..][k - 1] < b[1..][k - 1];
      }
      if a < b {
        assert a[0] == b[0] && a[1..] < b[1..];
      }
    }
  }

  lemma {:induction false} BeforeTransitive(a: string, b: string, c: string)
    requires Before(a, b) && Before(b, c)
    ensures Before(a, c)
  {
    if a != [] && a[0] == b[0] == c[0] {
      BeforeTransitive(a[1..], b[1..], c[1..]);
    }
  }

  ghost predicate Ascending(s: seq<string>) {
    forall i, j :: 0 <= i < j < |s| ==> Before(s[i], s[j])
  }

  /** `sorted(names)`, whatever order the set is gone through in. */
  method SortNames(names: set<string>) returns (s: seq<string>)
    ensures Ascending(s) && forall x :: x in s <==> x in names
  {
    s := [];
    var todo := names;
    while todo != {}
      invariant todo <= names && Ascending(s) && forall x :: x in s <==> x in names - todo
    {
      var x :| x in todo;
      s := Insert(s, x);
      todo := todo - {x};
    }
  }

  method Insert(s: seq<string>, x: string) returns (r: seq<string>)
    requires Ascending(s) && x !in s
    ensures Ascending(r) && forall y :: y in r <==> y in s || y == x
  {
    var k := 0;
    while k < |s| && Before(s[k], x)
      invariant k <= |s| && forall i :: 0 <= i < k ==> Before(s[i], x)
    {
      k := k + 1;
    }
    r := s[..k] + [x] + s[k..];
    forall j | k <= j < |s| ensures Before(x, s[j]) {
      BeforeTotal(s[k], x);
      if k < j {
        BeforeTransitive(x, s[k], s[j]);
      }
    }
    assert s == s[..k] + s[k..];
  }

  lemma NotItself(s: seq<string>)
    requires Ascending(s) && s != []
    ensures s[0] !in s[1..]
  {
    forall x | x in s[1..] ensures x != s[0] {
      BeforeTotal(s[0], s[0]);
    }
  }

  /** There is only one such list. */
  lemma {:induction false} AscendingUnique(s: seq<string>, t: seq<string>)
    requires Ascending(s) && Ascending(t) && forall x :: x in s <==> x in t
    ensures s == t
  {
    if s != [] {
      assert s[0] in t;
    }
    if t != [] {
      assert t[0] in s;
    }
    if s != [] && t != [] {
      assert s[0] == t[0] by {
        BeforeTotal(s[0], t[0]);
      }
      forall x ensures x in s[1..] <==> x in t[1..] {
        NotItself(s);
        NotItself(t);
        assert x in s <==> x == s[0] || x in s[1..];
        assert x in t <==> x == t[0] || x in t[1..];
      }
      AscendingUnique(s[1..], t[1..]);
      assert s == [s[0]] + s[1..] && t == [t[0]] + t[1..];
    }
  }

  // ---- what one variable depends on ----

  /**
   * What parsing found about a name: the variables its value refers to, the commands it runs, and the value
   * with what the signature adds to it. For a variable, vardeps and exclude are its flags of that name,
   * and hooks are its prefuncs, postfuncs and exports.
   */
  datatype Info =
    | Module(references: set<Var>, execs: set<Var>, value: Option<Val>)
    | FlagOf(exempt: bool, references: set<Var>, execs: set<Var>, value: Option<Val>)
    | Variable(references: set<Var>, execs: set<Var>, hooks: set<Var>, vardeps: set<Var>, exclude: set<Var>, value: Option<Val>)

  /** A name without info is a variable without value. keys are the names of the datastore. */
  datatype Recipe = Recipe(info: map<Var, Info>, keys: set<Var>, ignored: set<Var>)

  /** `build_dependencies(key, ...)` */
  function BuildDependencies(r: Recipe, key: Var): (set<Var>, Option<Val>) {
    if key !in r.info then ({}, None)
    else match r.info[key]
      case Module(references, execs, value) => ((references + r.keys * execs) - r.ignored, value)
      case FlagOf(exempt, references, execs, value) =>
        if exempt then ({}, Some("")) else ((references + r.keys * execs) - r.ignored, value)
      case Variable(references, execs, hooks, vardeps, exclude, value) =>
        ((references + r.keys * execs + hooks + vardeps) - exclude - r.ignored, value)
  }

  function Direct(r: Recipe): Var -> set<Var> {
    key => BuildDependencies(r, key).0
  }

  function ValueOf(r: Recipe): Var -> Option<Val> {
    key => BuildDependencies(r, key).1
  }

  // ---- reachability ----

  ghost predicate Path(next: Var -> set<Var>, p: seq<Var>) {
    forall i :: 0 <= i < |p| - 1 ==> p[i + 1] in next(p[i])
  }

  /** b is reached from a in one or more steps. */
  ghost predicate Reach(next: Var -> set<Var>, a: Var, b: Var) {
    exists p :: Path(next, p) && |p| > 1 && p[0] == a && p[|p| - 1] == b
  }

  lemma ReachFirst(next: Var -> set<Var>, a: Var, b: Var)
    requires b in next(a)
    ensures Reach(next, a, b)
  {
    assert Path(next, [a, b]);
  }

  lemma ReachFurther(next: Var -> set<Var>, a: Var, b: Var, c: Var)
    requires Reach(next, a, b) && c in next(b)
    ensures Reach(next, a, c)
  {
    var p :| Path(next, p) && |p| > 1 && p[0] == a && p[|p| - 1] == b;
    assert Path(next, p + [c]);
  }

  /** What is closed and holds the first step holds all that is reached. */
  lemma {:induction false} ClosedHoldsPath(next: Var -> set<Var>, p: seq<Var>, s: set<Var>)
    requires Path(next, p) && |p| > 1 && next(p[0]) <= s && forall v :: v in s ==> next(v) <= s
    ensures p[|p| - 1] in s
  {
    if |p| == 2 {
      assert p[1] in next(p[0]);
    } else {
      ClosedHoldsPath(next, p[..|p| - 1], s);
      assert p[|p| - 1] in next(p[|p| - 2]);
    }
  }

  lemma ClosedIsReach(next: Var -> set<Var>, a: Var, s: set<Var>)
    requires next(a) <= s && forall v :: v in s ==> next(v) <= s
    requires forall v :: v in s ==> Reach(next, a, v)
    ensures forall v :: v in s <==> Reach(next, a, v)
  {
    forall v | Reach(next, a, v) ensures v in s {
      var p :| Path(next, p) && |p| > 1 && p[0] == a && p[|p| - 1] == v;
      ClosedHoldsPath(next, p, s);
    }
  }

  /** No ignored variable is reached. */
  lemma ReachNotIgnored(r: Recipe, a: Var, b: Var)
    requires Reach(Direct(r), a, b)
    ensures b !in r.ignored
  {
    var p :| Path(Direct(r), p) && |p| > 1 && p[0] == a && p[|p| - 1] == b;
    assert p[|p| - 2 + 1] in Direct(r)(p[|p| - 2]);
  }

  // ---- generate_dependencies ----

  /** Every name that can turn up. */
  ghost function Names(r: Recipe): set<Var> {
    set k, v | k in r.info && v in BuildDependencies(r, k).0 :: v
  }

  /** The maps hold what `build_dependencies` says. */
  ghost predicate Exact(r: Recipe, deps: map<Var, set<Var>>, values: map<Var, Option<Val>>) {
    forall k :: (k in deps <==> k in values) && (k in deps ==> (deps[k], values[k]) == BuildDependencies(r, k))
  }

  ghost predicate FromTask(r: Recipe, tasklist: seq<Var>, k: Var) {
    k in tasklist || exists t :: t in tasklist && Reach(Direct(r), t, k)
  }

  /** One pass over nextdeps. */
  method Pass(r: Recipe, nextdeps: set<Var>, deps0: map<Var, set<Var>>, values0: map<Var, Option<Val>>)
    returns (newdeps: set<Var>, deps: map<Var, set<Var>>, values: map<Var, Option<Val>>)
    requires Exact(r, deps0, values0)
    ensures Exact(r, deps, values)
    ensures forall k :: k in deps <==> k in deps0 || k in nextdeps
    ensures forall v :: v in newdeps <==> exists k :: k in nextdeps && v in Direct(r)(k)
  {
    newdeps, deps, values := {}, deps0, values0;
    var todo := nextdeps;
    while todo != {}
      invariant todo <= nextdeps && Exact(r, deps, values)
      invariant forall k :: k in deps <==> k in deps0 || k in nextdeps - todo
      invariant forall v :: v in newdeps <==> exists k :: k in nextdeps - todo && v in Direct(r)(k)
    {
      var dep :| dep in todo;
      if dep !in deps {
        var (d, value) := BuildDependencies(r, dep);
        deps, values := deps[dep := d], values[dep := value];
      }
      assert deps[dep] == Direct(r)(dep);
      newdeps := newdeps + deps[dep];
      todo := todo - {dep};
    }
  }

  /** `generate_dependencies(d, ignored_vars)`: a closed map of exactly what the tasks reach. */
  method GenerateDependencies(r: Recipe, tasklist: seq<Var>)
    returns (deps: map<Var, set<Var>>, values: map<Var, Option<Val>>)
    ensures Exact(r, deps, values)
    ensures forall k :: k in deps <==> FromTask(r, tasklist, k)
    ensures forall k, v :: k in deps && v in deps[k] ==> v in deps
  {
    deps, values := map[], map[];
    for i := 0 to |tasklist|
      invariant Exact(r, deps, values)
      invariant forall k :: k in deps ==> FromTask(r, tasklist, k)
      invariant forall j :: 0 <= j < i ==> tasklist[j] in deps
      invariant forall k, v :: k in deps && v in deps[k] ==> v in deps
    {
      deps, values := FollowTask(r, tasklist, tasklist[i], deps, values);
    }
    forall k | FromTask(r, tasklist, k) ensures k in deps {
      if k !in tasklist {
        var t :| t in tasklist && Reach(Direct(r), t, k);
        var p :| Path(Direct(r), p) && |p| > 1 && p[0] == t && p[|p| - 1] == k;
        ClosedHoldsPath(Direct(r), p, deps.Keys);
      }
    }
  }

  /** The body of its loop. */
  method FollowTask(r: Recipe, ghost tasklist: seq<Var>, task: Var, deps0: map<Var, set<Var>>, values0: map<Var, Option<Val>>)
    returns (deps: map<Var, set<Var>>, values: map<Var, Option<Val>>)
    requires task in tasklist && Exact(r, deps0, values0)
    requires forall k :: k in deps0 ==> FromTask(r, tasklist, k)
    requires forall k, v :: k in deps0 && v in deps0[k] ==> v in deps0
    ensures Exact(r, deps, values)
    ensures forall k :: k in deps ==> FromTask(r, tasklist, k)
    ensures task in deps && forall k :: k in deps0 ==> k in deps
    ensures forall k, v :: k in deps && v in deps[k] ==> v in deps
  {
    var (d, value) := BuildDependencies(r, task);
    deps, values := deps0[task := d], values0[task := value];
    var newdeps, seen := d, {};
    forall v | v in d ensures Reach(Direct(r), task, v) {
      ReachFirst(Direct(r), task, v);
    }
    while newdeps != {}
      invariant Exact(r, deps, values) && task in deps
      invariant forall k :: k in deps0 ==> k in deps
      invariant forall k :: k in deps ==> FromTask(r, tasklist, k)
      invariant forall v :: v in newdeps ==> Reach(Direct(r), task, v) && v !in seen && v in Names(r)
      invariant forall v :: v in seen ==> v in deps
      invariant forall k, v :: k in deps && v in deps[k] ==> v in deps || v in newdeps
      decreases Names(r) - seen
    {
      var nextdeps := newdeps;
      ghost var before := deps;
      seen := seen + nextdeps;
      newdeps, deps, values := Pass(r, nextdeps, deps, values);
      forall v | v in newdeps ensures Reach(Direct(r), task, v) {
        var k :| k in nextdeps && v in Direct(r)(k);
        ReachFurther(Direct(r), task, k, v);
      }
      newdeps := newdeps - seen;
    }
  }

  // ---- generate_dependency_hash ----

  function Next(gendeps: map<Var, set<Var>>): Var -> set<Var> {
    k => if k in gendeps then gendeps[k] else {}
  }

  function ValueIn(lookup: map<Var, Option<Val>>): Var -> Option<Val> {
    k => if k in lookup then lookup[k] else None
  }

  function ValueText(value: Option<Val>): string {
    if value.Some? then value.value else ""
  }

  /** What is hashed after the task's own value: each name, and its value if it has one. */
  function Described(names: seq<Var>, value: Var -> Option<Val>): string {
    if names == [] then ""
    else Described(names[..|names| - 1], value) + names[|names| - 1] + ValueText(value(names[|names| - 1]))
  }

  ghost predicate Reached(next: Var -> set<Var>, task: Var, names: seq<Var>) {
    Ascending(names) && forall v :: v in names <==> Reach(next, task, v)
  }

  /** The text of a task's signature. */
  ghost predicate IsText(next: Var -> set<Var>, value: Var -> Option<Val>, task: Var, text: string) {
    exists names :: Reached(next, task, names) && text == ValueText(value(task)) + Described(names, value)
  }

  /** All that a task reaches: the loop over newdeps, which looks up only what the map has. */
  method Closure(gendeps: map<Var, set<Var>>, task: Var) returns (seen: set<Var>)
    requires task in gendeps && forall k, v :: k in gendeps && v in gendeps[k] ==> v in gendeps
    ensures forall v :: v in seen <==> Reach(Next(gendeps), task, v)
    ensures forall v :: v in seen ==> v in gendeps
  {
    var newdeps := gendeps[task];
    seen := {};
    forall v | v in newdeps ensures Reach(Next(gendeps), task, v) {
      ReachFirst(Next(gendeps), task, v);
    }
    while newdeps != {}
      invariant forall v :: v in newdeps ==> v !in seen
      invariant forall v :: v in seen || v in newdeps ==> v in gendeps && Reach(Next(gendeps), task, v)
      invariant forall v :: v in gendeps[task] ==> v in seen || v in newdeps
      invariant forall k, v :: k in seen && v in gendeps[k] ==> v in seen || v in newdeps
      decreases gendeps.Keys - seen
    {
      var nextdeps := newdeps;
      ghost var before := seen;
      seen := seen + nextdeps;
      newdeps := {};
      var todo := nextdeps;
      while todo != {}
        invariant todo <= nextdeps
        invariant forall v :: v in newdeps <==> exists k :: k in nextdeps - todo && v in gendeps[k]
      {
        var dep :| dep in todo;
        newdeps := newdeps + gendeps[dep];
        todo := todo - {dep};
      }
      forall v | v in newdeps ensures v in gendeps && Reach(Next(gendeps), task, v) {
        var k :| k in nextdeps && v in gendeps[k];
        ReachFurther(Next(gendeps), task, k, v);
      }
      newdeps := newdeps - seen;
    }
    ClosedIsReach(Next(gendeps), task, seen);
  }

  function HashKey(fn: string, task: Var): string {
    fn + ":" + task
  }

  lemma HashKeyInjective(fn: string, task: Var)
    ensures forall t :: HashKey(fn, t) == HashKey(fn, task) ==> t == task
  {
    assert forall t :: HashKey(fn, t)[|fn| + 1..] == t;
  }

  /** `generate_dependency_hash(...)`; the text stands for its sha256. */
  method GenerateDependencyHash(tasklist: seq<Var>, gendeps: map<Var, set<Var>>, lookup: map<Var, Option<Val>>, fn: string)
    returns (taskdeps: map<Var, set<Var>>, basehash: map<string, string>)
    requires forall t :: t in tasklist ==> t in gendeps
    requires forall k, v :: k in gendeps && v in gendeps[k] ==> v in gendeps
    requires forall k :: k in gendeps ==> k in lookup
    ensures forall t :: t in taskdeps <==> t in tasklist
    ensures forall t, v :: t in tasklist ==> (v in taskdeps[t] <==> Reach(Next(gendeps), t, v))
    ensures forall t :: t in tasklist ==> HashKey(fn, t) in basehash && IsText(Next(gendeps), ValueIn(lookup), t, basehash[HashKey(fn, t)])
  {
    taskdeps, basehash := map[], map[];
    for i := 0 to |tasklist|
      invariant forall t :: t in taskdeps <==> t in tasklist[..i]
      invariant forall t, v :: t in taskdeps ==> (v in taskdeps[t] <==> Reach(Next(gendeps), t, v))
      invariant forall t :: t in taskdeps ==> HashKey(fn, t) in basehash && IsText(Next(gendeps), ValueIn(lookup), t, basehash[HashKey(fn, t)])
    {
      hide IsText, Reach, Next, HashKey;
      var task := tasklist[i];
      var seen, data := TaskText(gendeps, lookup, task);
      HashKeyInjective(fn, task);
      var k := HashKey(fn, task);
      basehash := basehash[k := data];
      taskdeps := taskdeps[task := seen];
    }
  }

  /** The body of its loop. */
  method TaskText(gendeps: map<Var, set<Var>>, lookup: map<Var, Option<Val>>, task: Var) returns (seen: set<Var>, data: string)
    requires task in gendeps
    requires forall k, v :: k in gendeps && v in gendeps[k] ==> v in gendeps
    requires forall k :: k in gendeps ==> k in lookup
    ensures forall v :: v in seen <==> Reach(Next(gendeps), task, v)
    ensures IsText(Next(gendeps), ValueIn(lookup), task, data)
  {
    seen := Closure(gendeps, task);
    var alldeps := SortNames(seen);
    assert Reached(Next(gendeps), task, alldeps);
    data := Describe(lookup, if lookup[task].Some? then lookup[task].value else "", alldeps);
  }

  /** The loop over the sorted names. */
  method Describe(lookup: map<Var, Option<Val>>, own: string, alldeps: seq<Var>) returns (data: string)
    requires forall v :: v in alldeps ==> v in lookup
    ensures data == own + Described(alldeps, ValueIn(lookup))
  {
    data := own;
    for j := 0 to |alldeps|
      invariant data == own + Described(alldeps[..j], ValueIn(lookup))
    {
      assert alldeps[..j + 1][..j] == alldeps[..j];
      var dep := alldeps[j];
      data := data + dep;
      if lookup[dep].Some? {
        data := data + lookup[dep].value;
      }
    }
    assert alldeps[..|alldeps|] == alldeps;
  }

  // ---- what the text depends on ----

  /** The two agree on a task and on all that it reaches in the first. */
  ghost predicate Agree(n1: Var -> set<Var>, n2: Var -> set<Var>, task: Var) {
    n1(task) == n2(task) && forall v :: Reach(n1, task, v) ==> n1(v) == n2(v)
  }

  lemma {:induction false} SamePath(n1: Var -> set<Var>, n2: Var -> set<Var>, task: Var, p: seq<Var>)
    requires Agree(n1, n2, task) && |p| > 1 && p[0] == task
    ensures Path(n1, p) <==> Path(n2, p)
  {
    var q, k := p[..|p| - 1], |p| - 1;
    assert forall i :: 0 <= i < |q| - 1 ==> (q[i + 1] in n1(q[i]) <==> p[i + 1] in n1(p[i]));
    assert forall i :: 0 <= i < |q| - 1 ==> (q[i + 1] in n2(q[i]) <==> p[i + 1] in n2(p[i]));
    if |q| > 1 {
      SamePath(n1, n2, task, q);
      if Path(n1, q) {
        assert Reach(n1, task, q[|q| - 1]);
      }
    }
    if Path(n1, p) {
      assert Path(n1, q) && p[k - 1 + 1] in n1(p[k - 1]);
      forall i | 0 <= i < |p| - 1 ensures p[i + 1] in n2(p[i]) {
        assert i < |q| - 1 ==> q[i + 1] in n2(q[i]);
      }
    }
    if Path(n2, p) {
      assert Path(n2, q) && p[k - 1 + 1] in n2(p[k - 1]);
      forall i | 0 <= i < |p| - 1 ensures p[i + 1] in n1(p[i]) {
        assert i < |q| - 1 ==> q[i + 1] in n1(q[i]);
      }
    }
  }

  lemma SameReach(n1: Var -> set<Var>, n2: Var -> set<Var>, task: Var)
    requires Agree(n1, n2, task)
    ensures forall v :: Reach(n1, task, v) <==> Reach(n2, task, v)
  {
    forall v ensures Reach(n1, task, v) <==> Reach(n2, task, v) {
      if Reach(n1, task, v) {
        var p :| Path(n1, p) && |p| > 1 && p[0] == task && p[|p| - 1] == v;
        SamePath(n1, n2, task, p);
      }
      if Reach(n2, task, v) {
        var p :| Path(n2, p) && |p| > 1 && p[0] == task && p[|p| - 1] == v;
        SamePath(n1, n2, task, p);
      }
    }
  }

  lemma {:induction false} SameDescribed(names: seq<Var>, v1: Var -> Option<Val>, v2: Var -> Option<Val>)
    requires forall v :: v in names ==> v1(v) == v2(v)
    ensures Described(names, v1) == Described(names, v2)
  {
    if names != [] {
      SameDescribed(names[..|names| - 1], v1, v2);
    }
  }

  /**
   * The text depends only on the task's own value and on the names and values of what it reaches: if two
   * recipes agree on these, a text of the one is a text of the other, and there is only one.
   */
  lemma TextDependsOnClosure(
      n1: Var -> set<Var>, v1: Var -> Option<Val>, n2: Var -> set<Var>, v2: Var -> Option<Val>, task: Var, text: string)
    requires Agree(n1, n2, task) && v1(task) == v2(task)
    requires forall v :: Reach(n1, task, v) ==> v1(v) == v2(v)
    requires IsText(n1, v1, task, text)
    ensures forall t :: IsText(n2, v2, task, t) <==> t == text
  {
    SameReach(n1, n2, task);
    hide Reach;
    var names :| Reached(n1, task, names) && text == ValueText(v1(task)) + Described(names, v1);
    SameDescribed(names, v1, v2);
    assert Reached(n2, task, names);
    forall t | IsText(n2, v2, task, t) ensures t == text {
      var other :| Reached(n2, task, other) && t == ValueText(v2(task)) + Described(other, v2);
      AscendingUnique(names, other);
    }
  }

  lemma LastPart(a: string, x: string, b: string, y: string)
    requires a + x == b + y && |x| == |y|
    ensures a == b && x == y
  {
    assert (a + x)[..|a|] == a && (b + y)[..|b|] == b && (a + x)[|a|..] == x && (b + y)[|b|..] == y;
  }

  /** Descriptions with one value exchanged: the lengths differ as the values do, and if the texts are equal so are they. */
  lemma {:induction false} OneValueDescribed(names: seq<Var>, v1: Var -> Option<Val>, v2: Var -> Option<Val>, x: Var)
    requires Ascending(names) && forall v :: v in names && v != x ==> v1(v) == v2(v)
    ensures |Described(names, v1)| - |Described(names, v2)| == if x in names then |ValueText(v1(x))| - |ValueText(v2(x))| else 0
    ensures Described(names, v1) == Described(names, v2) && x in names ==> ValueText(v1(x)) == ValueText(v2(x))
  {
    if names != [] {
      var front, last := names[..|names| - 1], names[|names| - 1];
      OneValueDescribed(front, v1, v2, x);
      BeforeTotal(last, last);
      assert last !in front;
      assert forall v :: v in names <==> v in front || v == last;
      if Described(names, v1) == Described(names, v2) && x in names {
        LastPart(Described(front, v1) + last, ValueText(v1(last)), Described(front, v2) + last, ValueText(v2(last)));
        LastPart(Described(front, v1), last, Described(front, v2), last);
      }
    }
  }

  /** Two recipes with the same names, and the same values but for x. */
  ghost predicate OneValueApart(n1: Var -> set<Var>, v1: Var -> Option<Val>, n2: Var -> set<Var>, v2: Var -> Option<Val>, task: Var, x: Var) {
    && (forall v :: Reach(n1, task, v) <==> Reach(n2, task, v))
    && (forall v :: (v == task || Reach(n1, task, v)) && v != x ==> v1(v) == v2(v))
    && (x == task || Reach(n1, task, x))
  }

  /**
   * When the text does tell recipes apart: if only one value differs, the task's own or that of a name reached,
   * the texts are equal exactly if this value has the same text in both.
   */
  lemma {:induction false} TextSeparatesIff(
      n1: Var -> set<Var>, v1: Var -> Option<Val>, n2: Var -> set<Var>, v2: Var -> Option<Val>, task: Var, x: Var, t1: string, t2: string)
    requires OneValueApart(n1, v1, n2, v2, task, x) && IsText(n1, v1, task, t1) && IsText(n2, v2, task, t2)
    ensures t1 == t2 <==> ValueText(v1(x)) == ValueText(v2(x))
  {
    hide Reach;
    var names :| Reached(n1, task, names) && t1 == ValueText(v1(task)) + Described(names, v1);
    var other :| Reached(n2, task, other) && t2 == ValueText(v2(task)) + Described(other, v2);
    AscendingUnique(names, other);
    OneValueDescribed(names, v1, v2, x);
    if ValueText(v1(x)) == ValueText(v2(x)) {
      SameTexts(names, v1, v2);
    }
    if t1 == t2 {
      LastPart(ValueText(v1(task)), Described(names, v1), ValueText(v2(task)), Described(names, v2));
    }
  }

  lemma {:induction false} SameTexts(names: seq<Var>, v1: Var -> Option<Val>, v2: Var -> Option<Val>)
    requires forall v :: v in names ==> ValueText(v1(v)) == ValueText(v2(v))
    ensures Described(names, v1) == Described(names, v2)
  {
    if names != [] {
      SameTexts(names[..|names| - 1], v1, v2);
    }
  }

  /** A recipe whose only task depends, through its vardeps, on one variable. */
  function OneDependency(task: Var, own: Val, name: Var, value: Val): Recipe {
    Recipe(map[task := Variable({}, {}, {}, {name}, {}, Some(own)), name := Variable({}, {}, {}, {}, {}, Some(value))], {}, {})
  }

  /** The text of such a recipe. */
  lemma {:induction false} OneDependencyText(task: Var, own: Val, name: Var, value: Val)
    requires name != task
    ensures var r := OneDependency(task, own, name, value);
            IsText(Direct(r), ValueOf(r), task, own + (name + value))
  {
    var r := OneDependency(task, own, name, value);
    assert Direct(r)(task) == {name} && Direct(r)(name) == {};
    ReachFirst(Direct(r), task, name);
    ClosedIsReach(Direct(r), task, {name});
    assert Reached(Direct(r), task, [name]);
    assert [name][..0] == [] && Described([], ValueOf(r)) == "";
    assert Described([name], ValueOf(r)) == "" + name + value == name + value;
  }

  /**
   * Names are not told from values: moving the beginning of a value to the end of its name makes another
   * recipe with the same text.
   */
  lemma {:induction false} TextIsAmbiguous(task: Var, own: Val, name: Var, a: string, b: string)
    requires a != "" && name != task && name + a != task
    ensures OneDependency(task, own, name, a + b) != OneDependency(task, own, name + a, b)
    ensures exists text ::
      && IsText(Direct(OneDependency(task, own, name, a + b)), ValueOf(OneDependency(task, own, name, a + b)), task, text)
      && IsText(Direct(OneDependency(task, own, name + a, b)), ValueOf(OneDependency(task, own, name + a, b)), task, text)
  {
    hide IsText, Direct, ValueOf;
    OneDependencyText(task, own, name, a + b);
    OneDependencyText(task, own, name + a, b);
    var r1, r2 := OneDependency(task, own, name, a + b), OneDependency(task, own, name + a, b);
    assert name + (a + b) == name + a + b;
    assert r1.info[task].vardeps == {name} && r2.info[task].vardeps == {name + a} && |name + a| > |name|;
    assert name !in r2.info[task].vardeps;
  }

  // ---- both together ----

  /** Looking up what was generated is as good as asking for it anew. */
  lemma LookupsAgree(r: Recipe, deps: map<Var, set<Var>>, values: map<Var, Option<Val>>, task: Var)
    requires Exact(r, deps, values) && task in deps && forall k, v :: k in deps && v in deps[k] ==> v in deps
    ensures Agree(Next(deps), Direct(r), task)
    ensures ValueIn(values)(task) == ValueOf(r)(task)
    ensures forall v :: Reach(Next(deps), task, v) ==> ValueIn(values)(v) == ValueOf(r)(v)
  {
    forall v | Reach(Next(deps), task, v) ensures v in deps {
      var p :| Path(Next(deps), p) && |p| > 1 && p[0] == task && p[|p| - 1] == v;
      ClosedHoldsPath(Next(deps), p, deps.Keys);
    }
  }

  // ---- what the recipe says ----

  /** v is a dependency of k, by what was found about k. */
  predicate DependsOn(r: Recipe, k: Var, v: Var) {
    k in r.info && v !in r.ignored &&
    match r.info[k]
    case Module(references, execs, _) => v in references || (v in execs && v in r.keys)
    case FlagOf(exempt, references, execs, _) => !exempt && (v in references || (v in execs && v in r.keys))
    case Variable(references, execs, hooks, vardeps, exclude, _) =>
      v !in exclude && (v in references || (v in execs && v in r.keys) || v in hooks || v in vardeps)
  }

  /** One name after the other depends on the next. */
  ghost predicate Chain(r: Recipe, p: seq<Var>, from: Var, to: Var) {
    |p| > 1 && p[0] == from && p[|p| - 1] == to && forall i :: 0 <= i < |p| - 1 ==> DependsOn(r, p[i], p[i + 1])
  }

  /** What the signature takes for the value of k: nothing for a name without info or value, or for an exempt flag. */
  function TextFor(r: Recipe, k: Var): string {
    if k !in r.info || (r.info[k].FlagOf? && r.info[k].exempt) || r.info[k].value.None? then "" else r.info[k].value.value
  }

  /** Each name and its value, one after the other. */
  function NamesAndValues(r: Recipe, names: seq<Var>): string {
    if names == [] then "" else names[0] + TextFor(r, names[0]) + NamesAndValues(r, names[1..])
  }

  lemma DirectIs(r: Recipe, k: Var)
    ensures forall v :: v in Direct(r)(k) <==> DependsOn(r, k, v)
    ensures ValueText(ValueOf(r)(k)) == TextFor(r, k)
  {
  }

  lemma ChainIsReach(r: Recipe, a: Var, b: Var)
    ensures Reach(Direct(r), a, b) <==> exists p :: Chain(r, p, a, b)
  {
    if Reach(Direct(r), a, b) {
      var p :| Path(Direct(r), p) && |p| > 1 && p[0] == a && p[|p| - 1] == b;
      forall i | 0 <= i < |p| - 1 ensures DependsOn(r, p[i], p[i + 1]) {
        DirectIs(r, p[i]);
      }
      assert Chain(r, p, a, b);
    }
    if p :| Chain(r, p, a, b) {
      forall i | 0 <= i < |p| - 1 ensures p[i + 1] in Direct(r)(p[i]) {
        DirectIs(r, p[i]);
      }
      assert Path(Direct(r), p);
    }
  }

  lemma {:induction false} DescribedAppend(names: seq<Var>, more: seq<Var>, value: Var -> Option<Val>)
    ensures Described(names + more, value) == Described(names, value) + Described(more, value)
    decreases |more|
  {
    if more == [] {
      assert names + more == names;
    } else {
      assert (names + more)[..|names + more| - 1] == names + more[..|more| - 1];
      DescribedAppend(names, more[..|more| - 1], value);
    }
  }

  lemma {:induction false} DescribedIs(r: Recipe, names: seq<Var>)
    ensures Described(names, ValueOf(r)) == NamesAndValues(r, names)
  {
    if names != [] {
      DescribedIs(r, names[1..]);
      assert names == names[..1] + names[1..] && names[..1][..0] == [];
      DescribedAppend(names[..1], names[1..], ValueOf(r));
      DirectIs(r, names[0]);
      assert Described(names[..1], ValueOf(r)) == "" + names[0] + TextFor(r, names[0]);
      assert "" + names[0] == names[0];
    }
  }

  /** The text of a task, by what it depends on. */
  ghost predicate IsTextFor(r: Recipe, deps: set<Var>, task: Var, text: string) {
    exists names :: Ascending(names) && (forall v :: v in names <==> v in deps) && text == TextFor(r, task) + NamesAndValues(r, names)
  }

  lemma TextIsFor(r: Recipe, deps: set<Var>, task: Var, text: string)
    requires IsText(Direct(r), ValueOf(r), task, text) && forall v :: v in deps <==> Reach(Direct(r), task, v)
    ensures IsTextFor(r, deps, task, text)
  {
    hide Reach, Described;
    var names :| Reached(Direct(r), task, names) && text == ValueText(ValueOf(r)(task)) + Described(names, ValueOf(r));
    DescribedIs(r, names);
    DirectIs(r, task);
    assert forall v :: v in names <==> v in deps;
  }

  /**
   * From the recipe to the signatures. taskdeps[t] holds every dependency of t and of its own members, and nothing
   * that t does not lead to by a chain of such dependencies; and the hash of t is of its value, followed by each of
   * them in ascending order, with its value.
   */
  method TaskSignatures(r: Recipe, tasklist: seq<Var>, fn: string)
    returns (taskdeps: map<Var, set<Var>>, basehash: map<string, string>)
    ensures forall t :: t in taskdeps <==> t in tasklist
    ensures forall t, v :: t in tasklist ==> (v in taskdeps[t] <==> Reach(Direct(r), t, v))
    ensures forall t, k, v :: t in tasklist && (k == t || k in taskdeps[t]) && DependsOn(r, k, v) ==> v in taskdeps[t]
    ensures forall t, v :: t in tasklist && v in taskdeps[t] ==> v !in r.ignored && exists p :: Chain(r, p, t, v)
    ensures forall t :: t in tasklist ==>
      fn + ":" + t in basehash && IsText(Direct(r), ValueOf(r), t, basehash[fn + ":" + t])
      && IsTextFor(r, taskdeps[t], t, basehash[fn + ":" + t])
  {
    hide Reach, IsText, Agree, IsTextFor, DependsOn, Chain;
    var deps, values := GenerateDependencies(r, tasklist);
    taskdeps, basehash := GenerateDependencyHash(tasklist, deps, values, fn);
    forall t | t in tasklist
      ensures forall v :: Reach(Next(deps), t, v) <==> Reach(Direct(r), t, v)
      ensures IsText(Direct(r), ValueOf(r), t, basehash[HashKey(fn, t)]) && IsTextFor(r, taskdeps[t], t, basehash[HashKey(fn, t)])
    {
      LookupsAgree(r, deps, values, t);
      SameReach(Next(deps), Direct(r), t);
      TextDependsOnClosure(Next(deps), ValueIn(values), Direct(r), ValueOf(r), t, basehash[HashKey(fn, t)]);
      TextIsFor(r, taskdeps[t], t, basehash[HashKey(fn, t)]);
    }
    forall t, v | t in tasklist && v in taskdeps[t] ensures v !in r.ignored && exists p :: Chain(r, p, t, v) {
      ReachNotIgnored(r, t, v);
      ChainIsReach(r, t, v);
    }
    forall t, k, v | t in tasklist && (k == t || k in taskdeps[t]) && DependsOn(r, k, v) ensures v in taskdeps[t] {
      DirectIs(r, k);
      if k == t {
        ReachFirst(Direct(r), t, v);
      } else {
        ReachFurther(Direct(r), t, k, v);
      }
    }
  }

  /** r, with another value for x. */
  function WithValue(r: Recipe, x: Var, value: Val): Recipe
    requires x in r.info
  {
    r.(info := r.info[x := r.info[x].(value := Some(value))])
  }

  /**
   * The value of one name changes, the task's own or that of one that it leads to: the hash of the task is of the same
   * text exactly if the value is.
   */
  method HashFollowsValue(r: Recipe, tasklist: seq<Var>, fn: string, task: Var, x: Var, value: Val) returns (before: string, after: string)
    requires task in tasklist && x in r.info && !(r.info[x].FlagOf? && r.info[x].exempt)
    requires x == task || exists p :: Chain(r, p, task, x)
    ensures before == after <==> TextFor(r, x) == value
  {
    hide Reach, IsText, IsTextFor, DependsOn, Chain, BuildDependencies;
    var r' := WithValue(r, x, value);
    var taskdeps, basehash := TaskSignatures(r, tasklist, fn);
    before := basehash[HashKey(fn, task)];
    taskdeps, basehash := TaskSignatures(r', tasklist, fn);
    after := basehash[HashKey(fn, task)];
    ChainIsReach(r, task, x);
    OneChanged(r, x, value);
    SameReach(Direct(r), Direct(r'), task);
    TextSeparatesIff(Direct(r), ValueOf(r), Direct(r'), ValueOf(r'), task, x, before, after);
    DirectIs(r, x);
    DirectIs(r', x);
  }

  lemma OneChanged(r: Recipe, x: Var, value: Val)
    requires x in r.info && !(r.info[x].FlagOf? && r.info[x].exempt)
    ensures var r' := WithValue(r, x, value);
            && (forall k :: Direct(r')(k) == Direct(r)(k)) && (forall k :: k != x ==> ValueOf(r')(k) == ValueOf(r)(k))
            && TextFor(r', x) == value
  {
  }
}
