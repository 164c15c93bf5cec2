// The disk space monitor: warnings at intervals, and at most one stop of the run.
module DiskMonitor {
  import opened Options

  datatype Action = WARN | STOPTASKS | HALT

  type Key = (string, Action)

  /** The limits of one entry; none, or 0, is not checked. */
  datatype Attributes = Attributes(minSpace: Option<nat>, minInode: Option<nat>)

  /** What statvfs says: free space, the number of inodes, and free inodes, which may be -1. */
  datatype Sample = Sample(freeSpace: nat, files: nat, freeInode: int)

  datatype Event =
    | SpaceWarning(k: Key)
    | InodeWarning(k: Key)
    | Finish(k: Key, halt: bool)

  /** What the monitor keeps for one key. */
  datatype KeyState = KeyState(minInode: Option<nat>, preFreeS: nat, preFreeI: int, checked: bool)

  function Start(a: Attributes): KeyState {
    KeyState(a.minInode, 0, 0, false)
  }

  predicate Low(limit: Option<nat>, free: int) {
    limit.Some? && limit.value != 0 && free < limit.value
  }

  /** Free space or inodes are shown when nothing was shown yet, or much less is left than then. */
  predicate Shown(pre: int, free: int, interval: nat, checked: bool) {
    pre == 0 || (pre - free > interval && !checked)
  }

  function Stop(k: Key, checked: bool): seq<Event> {
    if checked then []
    else match k.1
      case WARN => []
      case STOPTASKS => [Finish(k, false)]
      case HALT => [Finish(k, true)]
  }

  /** The check of space for one key. */
  function CheckSpace(k: Key, minSpace: Option<nat>, interval: nat, s: KeyState, x: Sample): (KeyState, seq<Event>) {
    if !Low(minSpace, x.freeSpace) then (s, [])
    else
      var shown := Shown(s.preFreeS, x.freeSpace, interval, s.checked);
      (s.(preFreeS := if shown then x.freeSpace else s.preFreeS, checked := s.checked || k.1 != WARN),
       (if shown then [SpaceWarning(k)] else []) + Stop(k, s.checked))
  }

  /** The check of inodes: a file system that has no fixed number of them is not checked again. */
  function CheckInode(k: Key, interval: nat, s: KeyState, x: Sample): (KeyState, seq<Event>) {
    if !Low(s.minInode, x.freeInode) then (s, [])
    else if x.files == 0 || x.freeInode == -1 then (s.(minInode := None), [])
    else
      var shown := Shown(s.preFreeI, x.freeInode, interval, s.checked);
      (s.(preFreeI := if shown then x.freeInode else s.preFreeI, checked := s.checked || k.1 != WARN),
       (if shown then [InodeWarning(k)] else []) + Stop(k, s.checked))
  }

  function CheckKey(k: Key, minSpace: Option<nat>, spaceInterval: nat, inodeInterval: nat, s: KeyState, x: Sample): (KeyState, seq<Event>) {
    var (s1, e1) := CheckSpace(k, minSpace, spaceInterval, s, x);
    var (s2, e2) := CheckInode(k, inodeInterval, s1, x);
    (s2, e1 + e2)
  }

  class Monitor {
    const keys: seq<Key>
    const minSpace: map<Key, Option<nat>>
    const spaceInterval: nat
    const inodeInterval: nat
    var minInode: map<Key, Option<nat>>
    var preFreeS: map<Key, nat>
    var preFreeI: map<Key, int>
    var checked: map<Key, bool>
    /** What was logged and asked of the run queue. */
    var events: seq<Event>

    ghost predicate Valid()
      reads this
    {
      && (forall i, j :: 0 <= i < j < |keys| ==> keys[i] != keys[j])
      && forall k :: k in keys ==> k in minSpace && k in minInode && k in preFreeS && k in preFreeI && k in checked
    }

    ghost function State(k: Key): KeyState
      requires Valid() && k in keys
      reads this
    {
      KeyState(minInode[k], preFreeS[k], preFreeI[k], checked[k])
    }

    constructor (devDict: map<Key, Attributes>, keys: seq<Key>, spaceInterval: nat, inodeInterval: nat)
      requires forall k :: k in keys ==> k in devDict
      requires forall i, j :: 0 <= i < j < |keys| ==> keys[i] != keys[j]
      ensures Valid() && this.keys == keys && this.spaceInterval == spaceInterval && this.inodeInterval == inodeInterval
      ensures forall k :: k in keys ==> minSpace[k] == devDict[k].minSpace && State(k) == Start(devDict[k])
      ensures events == []
    {
      this.keys, this.spaceInterval, this.inodeInterval := keys, spaceInterval, inodeInterval;
      minSpace := map k | k in devDict :: devDict[k].minSpace;
      minInode := map k | k in devDict :: devDict[k].minInode;
      preFreeS := map k | k in devDict :: 0;
      preFreeI := map k | k in devDict :: 0;
      checked := map k | k in devDict :: false;
      events := [];
    }

    /** The events of one key. */
    ghost function Of(k: Key): seq<Event>
      reads this
    {
      Filter(events, k)
    }

    /** `check(rq)`, with what statvfs says of each path. */
    method Check(usage: map<string, Sample>)
      requires Valid() && forall k :: k in keys ==> k.0 in usage
      modifies this
      ensures Valid()
      ensures forall k :: k in keys ==>
        var (s, es) := CheckKey(k, minSpace[k], spaceInterval, inodeInterval, old(State(k)), usage[k.0]);
        State(k) == s && Of(k) == old(Of(k)) + es
    {
      for i := 0 to |keys|
        invariant Valid()
        invariant forall j :: i <= j < |keys| ==> State(keys[j]) == old(State(keys[j])) && Of(keys[j]) == old(Of(keys[j]))
        invariant forall j :: 0 <= j < i ==>
          var k := keys[j];
          var (s, es) := CheckKey(k, minSpace[k], spaceInterval, inodeInterval, old(State(k)), usage[k.0]);
          State(k) == s && Of(k) == old(Of(k)) + es
      {
        hide CheckKey;
        ghost var before := events;
        var k := keys[i];
        ghost var es := CheckKey(k, minSpace[k], spaceInterval, inodeInterval, State(k), usage[k.0]).1;
        OwnEvents(k, minSpace[k], spaceInterval, inodeInterval, State(k), usage[k.0]);
        CheckOne(k, usage[k.0]);
        forall j | 0 <= j < |keys| ensures Of(keys[j]) == Filter(before, keys[j]) + if j == i then es else [] {
          FilterAppend(before, es, k, keys[j]);
        }
      }
    }

    /** Any number of checks of a new monitor: every key goes its own way, and finishes the run at most once. */
    method CheckAll(usages: seq<map<string, Sample>>)
      requires Valid() && forall i, k :: 0 <= i < |usages| && k in keys ==> k.0 in usages[i]
      requires events == [] && forall k :: k in keys ==> State(k) == Start(Attributes(minSpace[k], minInode[k]))
      modifies this
      ensures Valid()
      ensures forall k :: k in keys ==>
        && (State(k), Of(k)) == Checks(Settings(k, minSpace[k], old(minInode[k]), spaceInterval, inodeInterval), Samples(usages, k))
        && Count(Of(k), IsFinish()) <= 1
        && forall e :: e in Of(k) && e.Finish? ==> (e.halt <==> k.1 == HALT)
    {
      hide CheckKey, Count;
      for i := 0 to |usages|
        invariant Valid()
        invariant forall k :: k in keys ==>
          (State(k), Of(k)) == Checks(Settings(k, minSpace[k], old(minInode[k]), spaceInterval, inodeInterval), Samples(usages[..i], k))
      {
        Check(usages[i]);
        forall k | k in keys ensures Samples(usages[..i + 1], k) == Samples(usages[..i], k) + [usages[i][k.0]] {
          assert usages[..i + 1][..i] == usages[..i];
        }
      }
      assert usages[..|usages|] == usages;
      forall k | k in keys ensures Count(Of(k), IsFinish()) <= 1 && forall e :: e in Of(k) && e.Finish? ==> (e.halt <==> k.1 == HALT) {
        FinishOnce(Settings(k, minSpace[k], old(minInode[k]), spaceInterval, inodeInterval), Samples(usages, k));
        HaltIff(Settings(k, minSpace[k], old(minInode[k]), spaceInterval, inodeInterval), Samples(usages, k));
      }
    }

    /** The body of its loop. */
    method CheckOne(k: Key, st: Sample)
      requires Valid() && k in keys
      modifies this
      ensures Valid()
      ensures var (s, es) := CheckKey(k, minSpace[k], spaceInterval, inodeInterval, old(State(k)), st);
              State(k) == s && events == old(events) + es
      ensures forall j :: j in keys && j != k ==> State(j) == old(State(j))
    {
      hide CheckSpace, CheckInode;
      CheckOneSpace(k, st);
      CheckOneInode(k, st);
    }

    method CheckOneSpace(k: Key, st: Sample)
      requires Valid() && k in keys
      modifies this
      ensures Valid()
      ensures (State(k), events) == (var (s, es) := CheckSpace(k, minSpace[k], spaceInterval, old(State(k)), st);
                                     (s, old(events) + es))
      ensures forall j :: j in keys && j != k ==> State(j) == old(State(j))
    {
      ghost var es := CheckSpace(k, minSpace[k], spaceInterval, State(k), st).1;
      ghost var before := events;
      var minS := minSpace[k];
      if minS.Some? && minS.value != 0 && st.freeSpace < minS.value {
        if preFreeS[k] == 0 || (preFreeS[k] - st.freeSpace > spaceInterval && !checked[k]) {
          events := events + [SpaceWarning(k)];
          preFreeS := preFreeS[k := st.freeSpace];
        }
        if k.1 == STOPTASKS && !checked[k] {
          checked := checked[k := true];
          events := events + [Finish(k, false)];
        } else if k.1 == HALT && !checked[k] {
          checked := checked[k := true];
          events := events + [Finish(k, true)];
        }
      }
      assert events == before + es;
    }

    method CheckOneInode(k: Key, st: Sample)
      requires Valid() && k in keys
      modifies this
      ensures Valid()
      ensures (State(k), events) == (var (s, es) := CheckInode(k, inodeInterval, old(State(k)), st);
                                     (s, old(events) + es))
      ensures forall j :: j in keys && j != k ==> State(j) == old(State(j))
    {
      ghost var es := CheckInode(k, inodeInterval, State(k), st).1;
      ghost var before := events;
      var minI := minInode[k];
      if minI.Some? && minI.value != 0 && st.freeInode < minI.value {
        if st.files == 0 || st.freeInode == -1 {
          assert es == [] && before + [] == before;
          minInode := minInode[k := None];
          return;
        }
        if preFreeI[k] == 0 || (preFreeI[k] - st.freeInode > inodeInterval && !checked[k]) {
          events := events + [InodeWarning(k)];
          preFreeI := preFreeI[k := st.freeInode];
        }
        if k.1 == STOPTASKS && !checked[k] {
          checked := checked[k := true];
          events := events + [Finish(k, false)];
        } else if k.1 == HALT && !checked[k] {
          checked := checked[k := true];
          events := events + [Finish(k, true)];
        }
      }
      assert events == before + es;
    }
  }

  function Filter(es: seq<Event>, k: Key): seq<Event> {
    if es == [] then []
    else
      var rest := Filter(es[..|es| - 1], k);
      if es[|es| - 1].k == k then rest + [es[|es| - 1]] else rest
  }

  lemma {:induction false} FilterAppend(a: seq<Event>, b: seq<Event>, k: Key, j: Key)
    requires forall e :: e in b ==> e.k == k
    ensures Filter(a + b, j) == Filter(a, j) + if j == k then b else []
    decreases |b|
  {
    if b == [] {
      assert a + b == a;
    } else {
      var front, last := b[..|b| - 1], b[|b| - 1];
      assert last in b && (a + b)[..|a + b| - 1] == a + front;
      FilterAppend(a, front, k, j);
      assert b == front + [last];
    }
  }

  lemma OwnEvents(k: Key, minSpace: Option<nat>, spaceInterval: nat, inodeInterval: nat, s: KeyState, x: Sample)
    ensures forall e :: e in CheckKey(k, minSpace, spaceInterval, inodeInterval, s, x).1 ==> e.k == k
  {
  }

  // ---- over all checks ----

  /** The settings for one key. */
  datatype Settings = Settings(k: Key, minSpace: Option<nat>, minInode: Option<nat>, spaceInterval: nat, inodeInterval: nat)

  function Checks(c: Settings, xs: seq<Sample>): (KeyState, seq<Event>) {
    if xs == [] then (Start(Attributes(c.minSpace, c.minInode)), [])
    else
      var (s, es) := Checks(c, xs[..|xs| - 1]);
      var (s', es') := CheckKey(c.k, c.minSpace, c.spaceInterval, c.inodeInterval, s, xs[|xs| - 1]);
      (s', es + es')
  }

  /** What statvfs said of the path of a key. */
  function Samples(usages: seq<map<string, Sample>>, k: Key): (xs: seq<Sample>)
    requires forall i :: 0 <= i < |usages| ==> k.0 in usages[i]
    ensures |xs| == |usages|
  {
    if usages == [] then [] else Samples(usages[..|usages| - 1], k) + [usages[|usages| - 1][k.0]]
  }

  function Count(es: seq<Event>, p: Event -> bool): nat {
    if es == [] then 0 else Count(es[..|es| - 1], p) + if p(es[|es| - 1]) then 1 else 0
  }

  lemma {:induction false} CountAppend(a: seq<Event>, b: seq<Event>, p: Event -> bool)
    ensures Count(a + b, p) == Count(a, p) + Count(b, p)
    decreases |b|
  {
    if b == [] {
      assert a + b == a;
    } else {
      assert (a + b)[..|a + b| - 1] == a + b[..|b| - 1];
      CountAppend(a, b[..|b| - 1], p);
    }
  }

  lemma CountStep(c: Settings, xs: seq<Sample>, p: Event -> bool)
    requires xs != []
    ensures var (s, es) := Checks(c, xs[..|xs| - 1]);
            var x := xs[|xs| - 1];
            var (s1, e1) := CheckSpace(c.k, c.minSpace, c.spaceInterval, s, x);
            var (s2, e2) := CheckInode(c.k, c.inodeInterval, s1, x);
            Checks(c, xs).0 == s2 && Count(Checks(c, xs).1, p) == Count(es, p) + Count(e1, p) + Count(e2, p)
  {
    var (s, es) := Checks(c, xs[..|xs| - 1]);
    var x := xs[|xs| - 1];
    var (s1, e1) := CheckSpace(c.k, c.minSpace, c.spaceInterval, s, x);
    var (s2, e2) := CheckInode(c.k, c.inodeInterval, s1, x);
    CountAppend(es, e1 + e2, p);
    CountAppend(e1, e2, p);
  }

  lemma CountShort(a: Event, b: Event, p: Event -> bool)
    ensures Count([], p) == 0
    ensures Count([a], p) == if p(a) then 1 else 0
    ensures Count([a] + [b], p) == (if p(a) then 1 else 0) + (if p(b) then 1 else 0)
    ensures Count([] + [a], p) == if p(a) then 1 else 0
  {
    assert [a][..0] == [] && [] + [a] == [a] && ([a] + [b])[..1] == [a];
  }

  function IsFinish(): Event -> bool {
    (e: Event) => e.Finish?
  }

  function IsSpaceWarning(): Event -> bool {
    (e: Event) => e.SpaceWarning?
  }

  function IsInodeWarning(): Event -> bool {
    (e: Event) => e.InodeWarning?
  }

  lemma StopCounts(k: Key, checked: bool)
    ensures Count(Stop(k, checked), IsSpaceWarning()) == 0 == Count(Stop(k, checked), IsInodeWarning())
    ensures Count(Stop(k, checked), IsFinish()) == if !checked && k.1 != WARN then 1 else 0
    ensures forall p: Event -> bool :: Count([], p) == 0
  {
    var e := Finish(k, k.1 == HALT);
    CountShort(e, e, IsSpaceWarning());
    CountShort(e, e, IsInodeWarning());
    CountShort(e, e, IsFinish());
    hide Count;
    forall p: Event -> bool ensures Count([], p) == 0 {
      CountShort(e, e, p);
    }
  }

  /** A warning, if it is shown, and what stops the run. */
  lemma WarnedCounts(warning: Event, k: Key, shown: bool, checked: bool, p: Event -> bool)
    ensures Count((if shown then [warning] else []) + Stop(k, checked), p)
            == (if shown && p(warning) then 1 else 0) + Count(Stop(k, checked), p)
  {
    CountAppend(if shown then [warning] else [], Stop(k, checked), p);
    CountShort(warning, warning, p);
    hide Count, Stop;
  }

  lemma SpaceCounts(k: Key, minSpace: Option<nat>, interval: nat, s: KeyState, x: Sample)
    ensures var es := CheckSpace(k, minSpace, interval, s, x).1;
            var low := Low(minSpace, x.freeSpace);
            && Count(es, IsSpaceWarning()) == (if low && Shown(s.preFreeS, x.freeSpace, interval, s.checked) then 1 else 0)
            && Count(es, IsInodeWarning()) == 0
            && Count(es, IsFinish()) == (if low && !s.checked && k.1 != WARN then 1 else 0)
  {
    hide Count, Stop, Low, Shown;
    var shown := Shown(s.preFreeS, x.freeSpace, interval, s.checked);
    StopCounts(k, s.checked);
    WarnedCounts(SpaceWarning(k), k, shown, s.checked, IsSpaceWarning());
    WarnedCounts(SpaceWarning(k), k, shown, s.checked, IsInodeWarning());
    WarnedCounts(SpaceWarning(k), k, shown, s.checked, IsFinish());
  }

  /** The inodes are low, and the file system counts them. */
  predicate LowInodes(minInode: Option<nat>, x: Sample) {
    Low(minInode, x.freeInode) && x.files != 0 && x.freeInode != -1
  }

  lemma InodeCounts(k: Key, interval: nat, s: KeyState, x: Sample)
    ensures var es := CheckInode(k, interval, s, x).1;
            && Count(es, IsSpaceWarning()) == 0
            && Count(es, IsInodeWarning()) == (if LowInodes(s.minInode, x) && Shown(s.preFreeI, x.freeInode, interval, s.checked) then 1 else 0)
            && Count(es, IsFinish()) == (if LowInodes(s.minInode, x) && !s.checked && k.1 != WARN then 1 else 0)
  {
    hide Count, Stop, Low, Shown;
    var shown := Shown(s.preFreeI, x.freeInode, interval, s.checked);
    StopCounts(k, s.checked);
    WarnedCounts(InodeWarning(k), k, shown, s.checked, IsSpaceWarning());
    WarnedCounts(InodeWarning(k), k, shown, s.checked, IsInodeWarning());
    WarnedCounts(InodeWarning(k), k, shown, s.checked, IsFinish());
  }

  // ---- the run is finished at most once ----

  lemma {:induction false} FinishOnce(c: Settings, xs: seq<Sample>)
    ensures var (s, es) := Checks(c, xs);
            Count(es, IsFinish()) == (if s.checked then 1 else 0) && (s.checked ==> c.k.1 != WARN)
  {
    if xs != [] {
      var (s, es) := Checks(c, xs[..|xs| - 1]);
      var x := xs[|xs| - 1];
      var s1 := CheckSpace(c.k, c.minSpace, c.spaceInterval, s, x).0;
      FinishOnce(c, xs[..|xs| - 1]);
      CountStep(c, xs, IsFinish());
      SpaceCounts(c.k, c.minSpace, c.spaceInterval, s, x);
      InodeCounts(c.k, c.inodeInterval, s1, x);
      hide Checks, Count;
    }
  }

  /** A file system that counts no inodes was found low before check i. */
  ghost predicate GivenUp(c: Settings, xs: seq<Sample>, i: nat)
    requires i <= |xs|
  {
    c.minInode.Some? && c.minInode.value > 0
    && exists j :: 0 <= j < i && xs[j].freeInode < c.minInode.value && (xs[j].files == 0 || xs[j].freeInode == -1)
  }

  /** The monitor has cause to finish the run at check i. */
  ghost predicate Cause(c: Settings, xs: seq<Sample>, i: nat)
    requires i < |xs|
  {
    || (c.minSpace.Some? && xs[i].freeSpace < c.minSpace.value)
    || (c.minInode.Some? && c.minInode.value > 0 && xs[i].freeInode < c.minInode.value
        && xs[i].files != 0 && xs[i].freeInode != -1 && !GivenUp(c, xs, i))
  }

  lemma CausesOneMore(c: Settings, front: seq<Sample>, x: Sample)
    ensures var xs := front + [x];
            && (GivenUp(c, xs, |xs|) <==> GivenUp(c, front, |front|) || (Low(c.minInode, x.freeInode) && !LowInodes(c.minInode, x)))
            && ((exists i :: 0 <= i < |xs| && Cause(c, xs, i)) <==>
                (exists i :: 0 <= i < |front| && Cause(c, front, i))
                || Low(c.minSpace, x.freeSpace) || (LowInodes(c.minInode, x) && !GivenUp(c, front, |front|)))
  {
    var xs := front + [x];
    forall i | 0 <= i <= |front| ensures GivenUp(c, front, i) <==> GivenUp(c, xs, i) {
      assert forall j :: 0 <= j < i ==> front[j] == xs[j];
    }
    assert xs[|front|] == x;
    assert GivenUp(c, xs, |xs|) <==> GivenUp(c, xs, |front|) || (Low(c.minInode, x.freeInode) && !LowInodes(c.minInode, x));
    assert Cause(c, xs, |front|) <==> Low(c.minSpace, x.freeSpace) || (LowInodes(c.minInode, x) && !GivenUp(c, front, |front|));
    hide GivenUp;
    forall i | 0 <= i < |front| ensures Cause(c, front, i) <==> Cause(c, xs, i) {
    }
    hide Cause;
    assert (exists i :: 0 <= i < |xs| && Cause(c, xs, i)) <==> (exists i :: 0 <= i < |front| && Cause(c, front, i)) || Cause(c, xs, |front|);
  }

  /** The run is finished, once, exactly if the action says so and some check found cause. */
  lemma {:induction false} FinishIff(c: Settings, xs: seq<Sample>)
    ensures Count(Checks(c, xs).1, IsFinish()) <= 1
    ensures Count(Checks(c, xs).1, IsFinish()) == 1 <==> c.k.1 != WARN && exists i :: 0 <= i < |xs| && Cause(c, xs, i)
    ensures Checks(c, xs).0.minInode == if GivenUp(c, xs, |xs|) then None else c.minInode
  {
    FinishOnce(c, xs);
    if xs != [] {
      var front, x := xs[..|xs| - 1], xs[|xs| - 1];
      FinishIff(c, front);
      FinishOnce(c, front);
      assert xs == front + [x];
      CausesOneMore(c, front, x);
      hide Count, GivenUp, Cause;
    }
  }

  /** It is told to halt at once exactly if that is the action, and it is the key's own. */
  lemma {:induction false} HaltIff(c: Settings, xs: seq<Sample>)
    ensures forall e :: e in Checks(c, xs).1 ==> e.k == c.k && (e.Finish? ==> (e.halt <==> c.k.1 == HALT) && c.k.1 != WARN)
  {
    if xs != [] {
      HaltIff(c, xs[..|xs| - 1]);
      OneHaltIff(c.k, c.minSpace, c.spaceInterval, c.inodeInterval, Checks(c, xs[..|xs| - 1]).0, xs[|xs| - 1]);
      hide CheckKey;
    }
  }

  lemma OneHaltIff(k: Key, minSpace: Option<nat>, spaceInterval: nat, inodeInterval: nat, s: KeyState, x: Sample)
    ensures forall e :: e in CheckKey(k, minSpace, spaceInterval, inodeInterval, s, x).1 ==>
              e.k == k && (e.Finish? ==> (e.halt <==> k.1 == HALT) && k.1 != WARN)
  {
  }

  // ---- how many warnings ----

  lemma InodeLeavesSpace(c: Settings, s: KeyState, x: Sample)
    ensures CheckInode(c.k, c.inodeInterval, s, x).0.preFreeS == s.preFreeS
  {
  }

  lemma AtMostQuotient(a: nat, d: nat, b: int)
    requires d > 0 && a * d <= b
    ensures a <= b / d
  {
    var q := b / d;
    if a > q {
      assert (q + 1) * d == q * d + d > b;
      MultipleGrows(q + 1, a, d);
    }
  }

  lemma MultipleGrows(x: int, y: int, d: nat)
    requires x <= y
    ensures x * d <= y * d
  {
    assert y * d == x * d + (y - x) * d;
  }

  /** How many warnings there can be while some space is left. */
  function Bound(c: Settings): nat {
    if c.minSpace.None? || c.minSpace.value < 2 then 0 else 1 + (c.minSpace.value - 2) / (c.spaceInterval + 1)
  }

  /** How often no space at all was left. */
  function Zeros(xs: seq<Sample>): nat {
    if xs == [] then 0 else Zeros(xs[..|xs| - 1]) + if xs[|xs| - 1].freeSpace == 0 then 1 else 0
  }

  /** m warnings were made since the last time that no space was left. */
  ghost predicate Spaced(c: Settings, pre: nat, m: nat) {
    && c.minSpace.Some? && m <= Bound(c)
    && (if m == 0 then pre == 0 else pre >= 1 && pre + (m - 1) * (c.spaceInterval + 1) <= c.minSpace.value - 1)
  }

  /** One more warning with some space left is among the possible ones. */
  lemma OneMoreSpaced(c: Settings, pre: nat, m: nat, free: nat)
    requires Spaced(c, pre, m) && 1 <= free < c.minSpace.value && (pre == 0 || pre - free > c.spaceInterval)
    ensures Spaced(c, free, m + 1)
  {
    var d := c.spaceInterval + 1;
    assert m * d == (m - 1) * d + d;
    assert m > 0 ==> free + m * d <= c.minSpace.value - 1;
    AtMostQuotient(m, d, c.minSpace.value - 2);
  }

  lemma {:induction false} WarningsMixed(c: Settings, xs: seq<Sample>) returns (m: nat)
    requires c.minSpace.Some?
    ensures var (s, es) := Checks(c, xs);
            Spaced(c, s.preFreeS, m) && Count(es, IsSpaceWarning()) <= Zeros(xs) * (Bound(c) + 1) + m
  {
    if xs == [] {
      m := 0;
    } else {
      var front, x := xs[..|xs| - 1], xs[|xs| - 1];
      var s := Checks(c, front).0;
      m := WarningsMixed(c, front);
      CountStep(c, xs, IsSpaceWarning());
      SpaceCounts(c.k, c.minSpace, c.spaceInterval, s, x);
      var s1 := CheckSpace(c.k, c.minSpace, c.spaceInterval, s, x).0;
      InodeCounts(c.k, c.inodeInterval, s1, x);
      InodeLeavesSpace(c, s1, x);
      hide Checks, Count, CheckInode, Bound, Spaced;
      assert (Zeros(front) + 1) * (Bound(c) + 1) == Zeros(front) * (Bound(c) + 1) + Bound(c) + 1;
      assert m <= Bound(c) by { SpacedBounded(c, s.preFreeS, m); }
      if Low(c.minSpace, x.freeSpace) && Shown(s.preFreeS, x.freeSpace, c.spaceInterval, s.checked) {
        if x.freeSpace == 0 {
          m := 0;
          NoneSpaced(c);
        } else {
          OneMoreSpaced(c, s.preFreeS, m, x.freeSpace);
          m := m + 1;
        }
      }
    }
  }

  lemma SpacedBounded(c: Settings, pre: nat, m: nat)
    requires Spaced(c, pre, m)
    ensures m <= Bound(c)
  {
  }

  lemma NoneSpaced(c: Settings)
    requires c.minSpace.Some?
    ensures Spaced(c, 0, 0)
  {
  }

  /** Whatever the samples: each one without any space left can start the warnings anew. */
  lemma {:induction false} MixedWarningBound(c: Settings, xs: seq<Sample>)
    requires c.minSpace.Some?
    ensures Count(Checks(c, xs).1, IsSpaceWarning()) <= Zeros(xs) * (Bound(c) + 1) + Bound(c)
  {
    var m := WarningsMixed(c, xs);
    hide Checks, Count;
  }

  lemma {:induction false} NoZeros(xs: seq<Sample>)
    requires forall i :: 0 <= i < |xs| ==> xs[i].freeSpace >= 1
    ensures Zeros(xs) == 0
  {
    if xs != [] {
      NoZeros(xs[..|xs| - 1]);
    }
  }

  /** However many checks are made, the number of warnings is bounded while some space is left. */
  lemma {:induction false} WarningBound(c: Settings, xs: seq<Sample>)
    requires c.minSpace.Some? && forall i :: 0 <= i < |xs| ==> xs[i].freeSpace >= 1
    ensures var n := Count(Checks(c, xs).1, IsSpaceWarning());
            if c.minSpace.value < 2 then n == 0 else n <= 1 + (c.minSpace.value - 2) / (c.spaceInterval + 1)
  {
    NoZeros(xs);
    MixedWarningBound(c, xs);
    hide Checks, Count, Zeros;
  }

  // ---- warnings about inodes ----

  /** The settings as if inodes were space. */
  function AsSpace(c: Settings): Settings {
    c.(minSpace := c.minInode, spaceInterval := c.inodeInterval)
  }

  /** What one more check does to the inode part of the state. */
  lemma InodeStep(c: Settings, xs: seq<Sample>)
    requires xs != []
    ensures var (s, es) := Checks(c, xs[..|xs| - 1]);
            var (s', es') := Checks(c, xs);
            var x := xs[|xs| - 1];
            var checked := CheckSpace(c.k, c.minSpace, c.spaceInterval, s, x).0.checked;
            var warned := LowInodes(s.minInode, x) && Shown(s.preFreeI, x.freeInode, c.inodeInterval, checked);
            && Count(es', IsInodeWarning()) == Count(es, IsInodeWarning()) + (if warned then 1 else 0)
            && s'.preFreeI == (if warned then x.freeInode else s.preFreeI)
            && (s'.minInode == s.minInode || s'.minInode == None)
  {
    var s := Checks(c, xs[..|xs| - 1]).0;
    var x := xs[|xs| - 1];
    CountStep(c, xs, IsInodeWarning());
    var s1 := CheckSpace(c.k, c.minSpace, c.spaceInterval, s, x).0;
    assert s1.preFreeI == s.preFreeI && s1.minInode == s.minInode;
    SpaceCounts(c.k, c.minSpace, c.spaceInterval, s, x);
    InodeCounts(c.k, c.inodeInterval, s1, x);
    hide Checks, Count, CheckSpace;
  }

  lemma {:induction false} InodeWarnings(c: Settings, xs: seq<Sample>)
    requires c.minInode.Some? && forall i :: 0 <= i < |xs| ==> xs[i].freeInode >= 1
    ensures var (s, es) := Checks(c, xs);
            var m := Count(es, IsInodeWarning());
            s.preFreeI >= 0 && Spaced(AsSpace(c), s.preFreeI, m) && (s.minInode == None || s.minInode == c.minInode)
  {
    if xs == [] {
      NoneSpaced(AsSpace(c));
    } else {
      var front, x := xs[..|xs| - 1], xs[|xs| - 1];
      var (s, es) := Checks(c, front);
      InodeWarnings(c, front);
      InodeStep(c, xs);
      hide Checks, Count, Spaced, CheckSpace, Bound;
      if Checks(c, xs).0.preFreeI != s.preFreeI || Count(Checks(c, xs).1, IsInodeWarning()) != Count(es, IsInodeWarning()) {
        OneMoreSpaced(AsSpace(c), s.preFreeI, Count(es, IsInodeWarning()), x.freeInode);
      }
    }
  }

  /** The same bound holds for warnings about inodes while some are left. */
  lemma {:induction false} InodeWarningBound(c: Settings, xs: seq<Sample>)
    requires c.minInode.Some? && forall i :: 0 <= i < |xs| ==> xs[i].freeInode >= 1
    ensures var n := Count(Checks(c, xs).1, IsInodeWarning());
            if c.minInode.value < 2 then n == 0 else n <= 1 + (c.minInode.value - 2) / (c.inodeInterval + 1)
  {
    InodeWarnings(c, xs);
    hide Checks, Count;
  }

  /** n times d. */
  function Times(n: nat, d: nat): nat {
    if n == 0 then 0 else Times(n - 1, d) + d
  }

  lemma {:induction false} TimesIs(n: nat, d: nat)
    ensures Times(n, d) == n * d
  {
    if n > 0 {
      TimesIs(n - 1, d);
      assert n * d == (n - 1) * d + d;
    }
  }

  /** Space that shrinks by just that much each time. */
  function Shrinking(from: nat, step: nat, n: nat): seq<Sample>
    requires Times(n, step) <= from + step
  {
    if n == 0 then [] else Shrinking(from, step, n - 1) + [Sample(from - Times(n - 1, step), 0, 0)]
  }

  lemma {:induction false} ShrinkingWarns(c: Settings, n: nat)
    requires c.k.1 == WARN && c.minSpace.Some? && c.minSpace.value >= 2 && c.minInode == None
    requires n > 0 ==> Times(n - 1, c.spaceInterval + 1) <= c.minSpace.value - 2
    ensures Times(n, c.spaceInterval + 1) <= c.minSpace.value - 1 + (c.spaceInterval + 1)
    ensures var xs := Shrinking(c.minSpace.value - 1, c.spaceInterval + 1, n);
            var (s, es) := Checks(c, xs);
            && |xs| == n && (forall i :: 0 <= i < |xs| ==> xs[i].freeSpace >= 1)
            && s.minInode == None && !s.checked && Count(es, IsSpaceWarning()) == n
            && s.preFreeS == if n == 0 then 0 else c.minSpace.value - 1 - Times(n - 1, c.spaceInterval + 1)
  {
    var from, step := c.minSpace.value - 1, c.spaceInterval + 1;
    hide Checks, Count;
    if n == 0 {
      NothingChecked(c);
    } else {
      ShrinkingWarns(c, n - 1);
      var front, x := Shrinking(from, step, n - 1), Sample(from - Times(n - 1, step), 0, 0);
      assert Shrinking(from, step, n) == front + [x];
      hide Shrinking;
      OneMoreWarning(c, front, x, n - 1);
    }
  }

  lemma NothingChecked(c: Settings)
    ensures Checks(c, []) == (Start(Attributes(c.minSpace, c.minInode)), []) && Count([], IsSpaceWarning()) == 0
  {
  }

  lemma OneMoreWarning(c: Settings, front: seq<Sample>, x: Sample, n: nat)
    requires c.minSpace.Some? && c.minSpace.value > x.freeSpace
    requires var (s, es) := Checks(c, front);
             && s.minInode == None && !s.checked && Count(es, IsSpaceWarning()) == n
             && (s.preFreeS == 0 || s.preFreeS - x.freeSpace > c.spaceInterval)
    requires c.k.1 == WARN
    ensures var (s, es) := Checks(c, front + [x]);
            s.minInode == None && !s.checked && Count(es, IsSpaceWarning()) == n + 1 && s.preFreeS == x.freeSpace
  {
    assert (front + [x])[..|front|] == front;
    CountStep(c, front + [x], IsSpaceWarning());
    var s := Checks(c, front).0;
    SpaceCounts(c.k, c.minSpace, c.spaceInterval, s, x);
    hide Checks, Count;
    InodeCounts(c.k, c.inodeInterval, CheckSpace(c.k, c.minSpace, c.spaceInterval, s, x).0, x);
  }

  /** The bound is reached. */
  lemma WarningBoundReached(c: Settings)
    requires c.k.1 == WARN && c.minSpace.Some? && c.minSpace.value >= 2 && c.minInode == None
    ensures exists xs: seq<Sample> ::
      && (forall i :: 0 <= i < |xs| ==> xs[i].freeSpace >= 1)
      && Count(Checks(c, xs).1, IsSpaceWarning()) == 1 + (c.minSpace.value - 2) / (c.spaceInterval + 1)
  {
    var d := c.spaceInterval + 1;
    var n := 1 + (c.minSpace.value - 2) / d;
    assert (n - 1) * d <= c.minSpace.value - 2;
    TimesIs(n - 1, d);
    ShrinkingWarns(c, n);
  }

  /** Without any space left there is a warning at every check: 0 stands for "not warned yet". */
  lemma {:induction false} NoSpaceWarnsAlways(c: Settings, xs: seq<Sample>)
    requires c.minSpace.Some? && c.minSpace.value > 0 && forall i :: 0 <= i < |xs| ==> xs[i].freeSpace == 0
    ensures Count(Checks(c, xs).1, IsSpaceWarning()) == |xs| && Checks(c, xs).0.preFreeS == 0
  {
    if xs != [] {
      var s := Checks(c, xs[..|xs| - 1]).0;
      var x := xs[|xs| - 1];
      NoSpaceWarnsAlways(c, xs[..|xs| - 1]);
      CountStep(c, xs, IsSpaceWarning());
      SpaceCounts(c.k, c.minSpace, c.spaceInterval, s, x);
      InodeCounts(c.k, c.inodeInterval, CheckSpace(c.k, c.minSpace, c.spaceInterval, s, x).0, x);
    }
  }
}
