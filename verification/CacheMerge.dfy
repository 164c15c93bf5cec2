// The cache shared by several processes: each saves its additions to a file, one merges them all.
module CacheMerge {
  import opened Options

  type Key = string
  type Val(==)
  type Pid = nat

  /** cachedata and cachedata_extras: a list of dictionaries. */
  type Tables = seq<map<Key, Val>>

  const VERSION: nat := 1

  /** Any version but VERSION is that of another release of the program. */
  datatype File = Partial | Complete(data: Tables, version: nat)

  // ---- merge_data ----

  /** What was there stays; the rest is added. */
  function Merge(source: Tables, dest: Tables): Tables
    requires |source| >= |dest|
  {
    seq(|dest|, j requires 0 <= j < |dest| => source[j] + dest[j])
  }

  /** `merge_data(source, dest)` */
  method MergeData(source: Tables, dest: array<map<Key, Val>>)
    requires |source| >= dest.Length
    modifies dest
    ensures dest[..] == Merge(source, old(dest[..]))
  {
    for j := 0 to dest.Length
      invariant forall i :: 0 <= i < j ==> dest[i] == source[i] + old(dest[i])
      invariant forall i :: j <= i < dest.Length ==> dest[i] == old(dest[i])
    {
      var todo := source[j].Keys;
      while todo != {}
        invariant todo <= source[j].Keys
        invariant forall i :: 0 <= i < dest.Length && i != j ==>
          dest[i] == if i < j then source[i] + old(dest[i]) else old(dest[i])
        invariant dest[j] == (source[j] - todo) + old(dest[j])
      {
        var h :| h in todo;
        if h !in dest[j] {
          dest[j] := dest[j][h := source[j][h]];
        }
        todo := todo - {h};
      }
      assert source[j] - todo == source[j];
    }
  }

  // ---- the processes ----

  /** Where a process is in `save_extras`. */
  datatype Phase =
    | Idle
    | Trying(i: nat)
    | Holding(i: nat)
    | Checked(i: nat)
    | Writing(i: nat)
    | Written
    | Releasing

  /** Where the merger is in `save_merge`; merged says that the first of todo is in the table already. */
  datatype Merger = Resting | Merging(todo: seq<nat>, merged: bool, haveData: bool)

  /**
   * shared, exclusive: the lock on cachefile.lock; index: the locks on cachefile.lock.<i>, with their
   * holders. files: cachefile-<i>. The last two fields only record what happened: committed holds all
   * that was completely written, orphans the files whose writer died.
   */
  datatype State = State(
    shared: set<Pid>,
    exclusive: bool,
    index: map<nat, Pid>,
    files: map<nat, File>,
    phase: map<Pid, Phase>,
    saving: map<Pid, Tables>,
    merger: Merger,
    table: Tables,
    cachefile: Option<Tables>,
    committed: set<(nat, Key, Val)>,
    orphans: set<nat>)

  datatype Event =
    | Begin(p: Pid, extras: Tables)
    | TryLock(p: Pid)
    | CheckExists(p: Pid)
    | Open(p: Pid)
    | Dump(p: Pid)
    | ReleaseIndex(p: Pid)
    | ReleaseShared(p: Pid)
    | Crash(p: Pid)
    | MergeStart(order: seq<nat>)
    | MergeLoad
    | MergeUnlink
    | MergeRaise
    | MergeEnd

  function Ph(s: State, p: Pid): Phase {
    if p in s.phase then s.phase[p] else Idle
  }

  function Saving(s: State, p: Pid): Tables {
    if p in s.saving then s.saving[p] else []
  }

  /** All that some tables hold. */
  function Pairs(t: Tables): set<(nat, Key, Val)> {
    set j: nat, k | j < |t| && k in t[j] :: (j, k, t[j][k])
  }

  predicate Loads(s: State, i: nat) {
    i in s.files && s.files[i].Complete? && s.files[i].version == VERSION
  }

  /**
   * Unpickling such a file ends in EOFError, after which it is unlinked like one of another version, or in an
   * UnpicklingError that nobody catches, depending on where it was cut.
   */
  predicate CutShort(s: State, i: nat) {
    i in s.files && s.files[i].Partial?
  }

  ghost predicate Enabled(s: State, e: Event) {
    match e
    case Begin(p, extras) =>
      Ph(s, p).Idle? && !s.exclusive && |extras| == |s.table| && exists j :: 0 <= j < |extras| && extras[j] != map[]
    case TryLock(p) => Ph(s, p).Trying?
    case CheckExists(p) => Ph(s, p).Holding?
    case Open(p) => Ph(s, p).Checked?
    case Dump(p) => Ph(s, p).Writing?
    case ReleaseIndex(p) => Ph(s, p).Written?
    case ReleaseShared(p) => Ph(s, p).Releasing?
    case Crash(p) => !Ph(s, p).Idle?
    case MergeStart(order) =>
      && s.merger.Resting? && !s.exclusive && s.shared == {}
      && (forall i :: i in order <==> i in s.files)
      && (forall a, b :: 0 <= a < b < |order| ==> order[a] != order[b])
    case MergeLoad => s.merger.Merging? && s.merger.todo != [] && !s.merger.merged && Loads(s, s.merger.todo[0])
    case MergeUnlink => s.merger.Merging? && s.merger.todo != [] && (s.merger.merged || !Loads(s, s.merger.todo[0]))
    case MergeRaise => s.merger.Merging? && s.merger.todo != [] && !s.merger.merged && CutShort(s, s.merger.todo[0])
    case MergeEnd => s.merger.Merging? && s.merger.todo == []
  }

  function Step(s: State, e: Event): State
    requires Enabled(s, e)
  {
    match e
    case Begin(p, extras) =>
      s.(shared := s.shared + {p}, phase := s.phase[p := Trying(p)], saving := s.saving[p := extras])
    case TryLock(p) =>
      var i := s.phase[p].i;
      if i in s.index then s.(phase := s.phase[p := Trying(i + 1)])
      else s.(index := s.index[i := p], phase := s.phase[p := Holding(i)])
    case CheckExists(p) =>
      var i := s.phase[p].i;
      if i in s.files then s.(index := s.index - {i}, phase := s.phase[p := Trying(i + 1)])
      else s.(phase := s.phase[p := Checked(i)])
    case Open(p) =>
      var i := s.phase[p].i;
      s.(files := s.files[i := Partial], phase := s.phase[p := Writing(i)])
    case Dump(p) =>
      var i := s.phase[p].i;
      s.(files := s.files[i := Complete(Saving(s, p), VERSION)],
         phase := s.phase[p := Written],
         committed := s.committed + Pairs(Saving(s, p)))
    case ReleaseIndex(p) => s.(index := WithoutHolder(s.index, p), phase := s.phase[p := Releasing])
    case ReleaseShared(p) => s.(shared := s.shared - {p}, phase := s.phase[p := Idle])
    case Crash(p) =>
      s.(index := WithoutHolder(s.index, p),
         shared := s.shared - {p},
         phase := s.phase[p := Idle],
         orphans := if s.phase[p].Writing? then s.orphans + {s.phase[p].i} else s.orphans)
    case MergeStart(order) => s.(exclusive := true, merger := Merging(order, false, false))
    case MergeLoad =>
      s.(table := MergeLoaded(s.table, s.files[s.merger.todo[0]].data), merger := s.merger.(merged := true, haveData := true))
    case MergeUnlink =>
      s.(files := s.files - {s.merger.todo[0]}, merger := s.merger.(todo := s.merger.todo[1..], merged := false))
    case MergeRaise => s.(exclusive := false, merger := Resting)
    case MergeEnd =>
      s.(cachefile := if s.merger.haveData then Some(s.table) else s.cachefile, exclusive := false, merger := Resting)
  }

  /** The system lets go of every lock that a process holds. */
  function WithoutHolder(index: map<nat, Pid>, p: Pid): map<nat, Pid> {
    map i | i in index && index[i] != p :: index[i]
  }

  /** `merge_data` on a file of this version, which has as many tables. */
  function MergeLoaded(table: Tables, data: Tables): Tables {
    if |data| >= |table| then Merge(data, table) else table
  }

  ghost predicate CanRun(s: State, es: seq<Event>)
    decreases |es|
  {
    es == [] || (Enabled(s, es[0]) && CanRun(Step(s, es[0]), es[1..]))
  }

  function Run(s: State, es: seq<Event>): State
    requires CanRun(s, es)
    decreases |es|
  {
    if es == [] then s else Run(Step(s, es[0]), es[1..])
  }

  /** Before any process starts: a table that was read from the cache, and files left by earlier runs. */
  function Start(table: Tables, files: map<nat, File>): State {
    State({}, false, map[], files, map[], map[], Resting, table, None,
          set i, c | i in files && files[i].Complete? && files[i].version == VERSION && c in Pairs(files[i].data) :: c,
          set i | i in files && files[i].Partial?)
  }

  // ---- the invariant ----

  /** The lock on the cache says where the processes are. */
  ghost predicate CacheLock(s: State) {
    && (s.exclusive <==> s.merger.Merging?)
    && (s.exclusive ==> s.shared == {})
    && (forall p :: p in s.shared <==> !Ph(s, p).Idle?)
  }

  /** The locks on the indexes do too. */
  ghost predicate IndexOk(s: State, i: nat) {
    i in s.index ==>
      var ph := Ph(s, s.index[i]);
      ph.Written? || ((ph.Holding? || ph.Checked? || ph.Writing?) && ph.i == i)
  }

  ghost predicate PhaseOk(s: State, p: Pid) {
    var ph := Ph(s, p);
    ph.Holding? || ph.Checked? || ph.Writing? ==> ph.i in s.index && s.index[ph.i] == p
  }

  ghost predicate IndexLocks(s: State) {
    (forall i :: IndexOk(s, i)) && (forall p :: PhaseOk(s, p))
  }

  /** A file about to be written does not exist, and one being written is not finished. */
  ghost predicate OwnFile(s: State, p: Pid) {
    var ph := Ph(s, p);
    && (ph.Checked? ==> ph.i !in s.files)
    && (ph.Writing? ==> ph.i in s.files && s.files[ph.i].Partial?)
    && (!ph.Idle? ==> |Saving(s, p)| == |s.table|)
  }

  /** An unfinished file is being written, or lost its writer. */
  ghost predicate FileOk(s: State, i: nat) {
    && (i in s.files && s.files[i].Partial? && i !in s.orphans ==> i in s.index && Ph(s, s.index[i]) == Writing(i))
    && (Loads(s, i) ==> |s.files[i].data| == |s.table|)
  }

  ghost predicate Files(s: State) {
    (forall p :: OwnFile(s, p)) && (forall i :: FileOk(s, i))
  }

  /** What the merger has still to do. */
  ghost predicate Todo(s: State) {
    s.merger.Merging? ==>
      && (forall i :: i in s.merger.todo <==> i in s.files)
      && (forall a, b :: 0 <= a < b < |s.merger.todo| ==> s.merger.todo[a] != s.merger.todo[b])
      && (s.merger.merged ==> s.merger.todo != [] && Loads(s, s.merger.todo[0])
                              && Covers(s.table, s.files[s.merger.todo[0]].data))
      && (!s.merger.haveData ==> !s.merger.merged)
  }

  predicate InTable(t: Tables, j: nat, k: Key) {
    j < |t| && k in t[j]
  }

  ghost predicate Covers(t: Tables, data: Tables) {
    forall j: nat, k :: InTable(data, j, k) ==> InTable(t, j, k)
  }

  ghost predicate InFile(s: State, j: nat, k: Key) {
    exists i :: Loads(s, i) && InTable(s.files[i].data, j, k)
  }

  /** Nothing committed is lost. */
  ghost predicate Kept(s: State) {
    forall c :: c in s.committed ==> InTable(s.table, c.0, c.1) || InFile(s, c.0, c.1)
  }

  /** Nothing appears that was not there at the start or committed. */
  ghost predicate Sourced(s: State, initial: Tables) {
    && (forall c :: c in Pairs(s.table) ==> c in Pairs(initial) || c in s.committed)
    && (forall i, c :: Loads(s, i) && c in Pairs(s.files[i].data) ==> c in s.committed)
  }

  ghost predicate Inv(s: State, initial: Tables) {
    CacheLock(s) && IndexLocks(s) && Files(s) && Todo(s) && Kept(s) && Sourced(s, initial) && |s.table| == |initial|
  }

  /** The process that makes a step; None is the merger. */
  function Owner(e: Event): Option<Pid> {
    if e.MergeStart? || e.MergeLoad? || e.MergeUnlink? || e.MergeRaise? || e.MergeEnd? then None else Some(e.p)
  }

  lemma OthersStay(s: State, e: Event, q: Pid)
    requires Enabled(s, e) && Owner(e) != Some(q)
    ensures var s' := Step(s, e);
            Ph(s', q) == Ph(s, q) && Saving(s', q) == Saving(s, q) && (q in s'.shared <==> q in s.shared)
  {
  }

  lemma CacheLockKept(s: State, e: Event)
    requires CacheLock(s) && Enabled(s, e)
    ensures CacheLock(Step(s, e))
  {
    var s' := Step(s, e);
    forall q ensures q in s'.shared <==> !Ph(s', q).Idle? {
      if Owner(e) != Some(q) {
        OthersStay(s, e, q);
      }
    }
  }

  lemma IndexOkKept(s: State, e: Event, i: nat)
    requires IndexLocks(s) && Enabled(s, e)
    ensures IndexOk(Step(s, e), i)
  {
    assert IndexOk(s, i);
    if Owner(e).None? {
      hide Step, Enabled;
      MergerLeavesLocks(s, e);
      if i in s.index {
        OthersStay(s, e, s.index[i]);
      }
    } else {
      assert PhaseOk(s, e.p);
      if i in s.index && Owner(e) != Some(s.index[i]) {
        OthersStay(s, e, s.index[i]);
      }
    }
  }

  lemma MergerLeavesLocks(s: State, e: Event)
    requires Enabled(s, e) && Owner(e).None?
    ensures Step(s, e).index == s.index && Step(s, e).phase == s.phase
  {
  }

  lemma PhaseOkKept(s: State, e: Event, q: Pid)
    requires IndexLocks(s) && Enabled(s, e)
    ensures PhaseOk(Step(s, e), q)
  {
    assert PhaseOk(s, q);
    if Owner(e).Some? {
      assert PhaseOk(s, e.p);
    }
    if Owner(e) != Some(q) {
      OthersStay(s, e, q);
    }
  }

  lemma IndexLocksKept(s: State, e: Event)
    requires IndexLocks(s) && Enabled(s, e)
    ensures IndexLocks(Step(s, e))
  {
    hide Step, Enabled, IndexOk, PhaseOk;
    var s' := Step(s, e);
    forall i ensures IndexOk(s', i) {
      IndexOkKept(s, e, i);
    }
    forall p ensures PhaseOk(s', p) {
      PhaseOkKept(s, e, p);
    }
  }

  lemma OwnFileKept(s: State, e: Event, q: Pid)
    requires CacheLock(s) && IndexLocks(s) && OwnFile(s, q) && Enabled(s, e)
    ensures OwnFile(Step(s, e), q)
  {
    assert PhaseOk(s, q) && q in s.shared <==> !Ph(s, q).Idle?;
    if Owner(e).Some? {
      assert PhaseOk(s, e.p);
    }
    if Owner(e) != Some(q) {
      OthersStay(s, e, q);
    }
  }

  lemma FileOkKept(s: State, e: Event, i: nat)
    requires CacheLock(s) && IndexLocks(s) && Files(s) && Enabled(s, e)
    ensures FileOk(Step(s, e), i)
  {
    assert FileOk(s, i) && IndexOk(s, i);
    if Owner(e).Some? {
      assert PhaseOk(s, e.p) && OwnFile(s, e.p);
    }
    if i in s.index && Owner(e) != Some(s.index[i]) {
      OthersStay(s, e, s.index[i]);
    }
  }

  lemma FilesKept(s: State, e: Event)
    requires CacheLock(s) && IndexLocks(s) && Files(s) && Enabled(s, e)
    ensures Files(Step(s, e))
  {
    hide Step, Enabled, CacheLock, OwnFile, FileOk;
    var s' := Step(s, e);
    forall p ensures OwnFile(s', p) {
      assert OwnFile(s, p);
      OwnFileKept(s, e, p);
    }
    forall i ensures FileOk(s', i) {
      FileOkKept(s, e, i);
    }
  }

  lemma TodoKept(s: State, e: Event)
    requires CacheLock(s) && Files(s) && Todo(s) && Enabled(s, e)
    ensures Todo(Step(s, e))
  {
    var s' := Step(s, e);
    if Owner(e).Some? {
      assert s'.merger == s.merger;
      assert !e.Begin? ==> e.p in s.shared;
    } else if e.MergeLoad? {
      assert FileOk(s, s.merger.todo[0]);
    }
  }

  /** A file of this version stays until its contents are in the table. */
  lemma FileStays(s: State, e: Event, i: nat)
    requires CacheLock(s) && IndexLocks(s) && Files(s) && Todo(s) && Enabled(s, e) && Loads(s, i)
    ensures var s' := Step(s, e);
            (Loads(s', i) && s'.files[i] == s.files[i]) || Covers(s'.table, s.files[i].data)
  {
    if Owner(e).Some? {
      assert OwnFile(s, e.p);
    }
  }

  lemma TableGrows(s: State, e: Event)
    requires Enabled(s, e)
    ensures |Step(s, e).table| == |s.table|
    ensures forall j: nat, k :: InTable(s.table, j, k) ==> InTable(Step(s, e).table, j, k) && Step(s, e).table[j][k] == s.table[j][k]
  {
  }

  lemma KeptKept(s: State, e: Event)
    requires CacheLock(s) && IndexLocks(s) && Files(s) && Todo(s) && Kept(s) && Enabled(s, e)
    ensures Kept(Step(s, e))
  {
    var s' := Step(s, e);
    TableGrows(s, e);
    forall c | c in s'.committed ensures InTable(s'.table, c.0, c.1) || InFile(s', c.0, c.1) {
      if c in s.committed {
        if !InTable(s.table, c.0, c.1) {
          var i :| Loads(s, i) && InTable(s.files[i].data, c.0, c.1);
          FileStays(s, e, i);
          hide Step;
        }
      } else {
        assert e.Dump? && Loads(s', s.phase[e.p].i);
        assert InTable(s'.files[s.phase[e.p].i].data, c.0, c.1);
      }
    }
  }

  lemma SourcedKept(s: State, e: Event, initial: Tables)
    requires CacheLock(s) && IndexLocks(s) && Files(s) && Todo(s) && Sourced(s, initial) && Enabled(s, e)
    ensures Sourced(Step(s, e), initial)
  {
  }

  // ---- over whole runs ----

  lemma StartInv(table: Tables, files: map<nat, File>)
    requires SameShape(table, files)
    ensures Inv(Start(table, files), table)
  {
    var s := Start(table, files);
    forall c | c in s.committed ensures InFile(s, c.0, c.1) {
      var i :| i in files && files[i].Complete? && files[i].version == VERSION && c in Pairs(files[i].data);
      assert Loads(s, i) && InTable(s.files[i].data, c.0, c.1);
    }
  }

  lemma {:induction false} RunInv(s: State, es: seq<Event>, initial: Tables)
    requires Inv(s, initial) && CanRun(s, es)
    ensures Inv(Run(s, es), initial)
    decreases |es|
  {
    if es != [] {
      var e := es[0];
      hide Step, Enabled, CacheLock, IndexLocks, Files, Todo, Kept, Sourced;
      CacheLockKept(s, e);
      IndexLocksKept(s, e);
      FilesKept(s, e);
      TodoKept(s, e);
      KeptKept(s, e);
      SourcedKept(s, e, initial);
      TableGrows(s, e);
      RunInv(Step(s, e), es[1..], initial);
    }
  }

  /** Files of this version have as many tables as the merger. */
  ghost predicate SameShape(table: Tables, files: map<nat, File>) {
    forall i :: i in files && files[i].Complete? && files[i].version == VERSION ==> |files[i].data| == |table|
  }

  /**
   * In every interleaving of savers and the merger, a process that is about to open its file for writing
   * does not overwrite one, and no two processes write the same file.
   */
  lemma NeverOverwritten(table: Tables, files: map<nat, File>, es: seq<Event>, p: Pid, q: Pid)
    requires SameShape(table, files) && CanRun(Start(table, files), es)
    ensures var s := Run(Start(table, files), es);
            && (Enabled(s, Open(p)) ==> s.phase[p].i !in s.files)
            && (Ph(s, p).Writing? && Ph(s, q).Writing? && p != q ==> Ph(s, p).i != Ph(s, q).i)
  {
    StartInv(table, files);
    RunInv(Start(table, files), es, table);
    var s := Run(Start(table, files), es);
    assert OwnFile(s, p) && PhaseOk(s, p) && PhaseOk(s, q);
  }

  /** The merger meets an unfinished file only if its writer died, and nobody writes while it runs. */
  lemma NeverHalfRead(table: Tables, files: map<nat, File>, es: seq<Event>)
    requires SameShape(table, files) && CanRun(Start(table, files), es)
    ensures var s := Run(Start(table, files), es);
            s.merger.Merging? ==>
              && (forall i :: i in s.merger.todo ==> i in s.files && (s.files[i].Partial? ==> i in s.orphans))
              && (forall p :: Ph(s, p).Idle?)
  {
    StartInv(table, files);
    RunInv(Start(table, files), es, table);
    var s := Run(Start(table, files), es);
    if s.merger.Merging? {
      forall p ensures Ph(s, p).Idle? {
        assert p !in s.shared;
      }
      forall i | i in s.merger.todo ensures i in s.files && (s.files[i].Partial? ==> i in s.orphans) {
        assert FileOk(s, i);
      }
    }
  }

  /** Without a crash there are no such files. */
  lemma {:induction false} NoCrashNoOrphans(s: State, es: seq<Event>)
    requires CanRun(s, es) && forall i :: 0 <= i < |es| ==> !es[i].Crash?
    ensures Run(s, es).orphans == s.orphans
    decreases |es|
  {
    if es != [] {
      assert forall i :: 0 <= i < |es[1..]| ==> es[1..][i] == es[i + 1];
      NoCrashNoOrphans(Step(s, es[0]), es[1..]);
    }
  }

  /**
   * Whatever was committed is always in a finished file or in the table; when the merger is done no file is
   * left and all of it is in the table; and nothing is there that was not committed or there at the start.
   */
  lemma NothingLost(table: Tables, files: map<nat, File>, es: seq<Event>)
    requires SameShape(table, files) && CanRun(Start(table, files), es)
    ensures var s := Run(Start(table, files), es);
            && (forall c :: c in s.committed ==> InTable(s.table, c.0, c.1) || InFile(s, c.0, c.1))
            && (Enabled(s, MergeEnd) ==> s.files == map[] && forall c :: c in s.committed ==> InTable(s.table, c.0, c.1))
            && (forall c :: c in Pairs(s.table) ==> c in Pairs(table) || c in s.committed)
  {
    StartInv(table, files);
    RunInv(Start(table, files), es, table);
  }

  // ---- what is on disk ----

  /** A key that a restart of the program finds: in the cache it was started with, in the one written since, or in a file. */
  ghost predicate OnDisk(s: State, initial: Tables, j: nat, k: Key) {
    InTable(initial, j, k) || (s.cachefile.Some? && InTable(s.cachefile.value, j, k)) || InFile(s, j, k)
  }

  /** Unless the merger has taken in a file, its table is written down. */
  ghost predicate WrittenDown(s: State, initial: Tables) {
    s.merger.Resting? || !s.merger.haveData ==>
      forall j: nat, k :: InTable(s.table, j, k) ==> InTable(initial, j, k) || (s.cachefile.Some? && InTable(s.cachefile.value, j, k))
  }

  lemma WrittenDownKept(s: State, e: Event, initial: Tables)
    requires WrittenDown(s, initial) && Enabled(s, e) && !e.MergeRaise?
    ensures WrittenDown(Step(s, e), initial)
  {
    if !e.MergeLoad? && !e.MergeEnd? {
      assert Step(s, e).table == s.table && Step(s, e).cachefile == s.cachefile;
    }
  }

  lemma {:induction false} RunWritesDown(s: State, es: seq<Event>, initial: Tables)
    requires WrittenDown(s, initial) && CanRun(s, es) && forall i :: 0 <= i < |es| ==> !es[i].MergeRaise?
    ensures WrittenDown(Run(s, es), initial)
    decreases |es|
  {
    if es != [] {
      assert forall i :: 0 <= i < |es[1..]| ==> es[1..][i] == es[i + 1];
      assert !es[0].MergeRaise?;
      WrittenDownKept(s, es[0], initial);
      hide Step, Enabled, WrittenDown;
      RunWritesDown(Step(s, es[0]), es[1..], initial);
    }
  }

  /** As long as no merge raises, all that was committed is on disk whenever no merge is under way. */
  lemma AllOnDisk(table: Tables, files: map<nat, File>, es: seq<Event>)
    requires SameShape(table, files) && CanRun(Start(table, files), es) && forall i :: 0 <= i < |es| ==> !es[i].MergeRaise?
    ensures var s := Run(Start(table, files), es);
            s.merger.Resting? ==> forall c :: c in s.committed ==> OnDisk(s, table, c.0, c.1)
  {
    NothingLost(table, files, es);
    RunWritesDown(Start(table, files), es, table);
  }

  lemma NothingTakenIn(s: State, e: Event)
    requires Enabled(s, e) && (s.merger.Resting? || !s.merger.haveData) && !e.MergeLoad?
    ensures var s' := Step(s, e);
            s'.cachefile == s.cachefile && s'.table == s.table && (s'.merger.Resting? || !s'.merger.haveData)
  {
  }

  /** The cache is not written again when no file of this version was there to merge. */
  lemma {:induction false} WrittenOnlyWithData(s: State, es: seq<Event>)
    requires CanRun(s, es) && (s.merger.Resting? || !s.merger.haveData) && forall i :: 0 <= i < |es| ==> !es[i].MergeLoad?
    ensures Run(s, es).cachefile == s.cachefile && Run(s, es).table == s.table
    decreases |es|
  {
    if es != [] {
      assert forall i :: 0 <= i < |es[1..]| ==> es[1..][i] == es[i + 1];
      assert !es[0].MergeLoad?;
      NothingTakenIn(s, es[0]);
      hide Step, Enabled;
      WrittenOnlyWithData(Step(s, es[0]), es[1..]);
    }
  }

  /** A merge that raises leaves what it has taken in on disk nowhere: those files are unlinked already. */
  lemma RaiseLosesOnDisk(k: Key, x: Val, i: nat, cut: nat)
    requires i != cut
    ensures var files := map[i := Complete([map[k := x]], VERSION), cut := Partial];
            var es := [MergeStart([i, cut]), MergeLoad, MergeUnlink, MergeRaise];
            && SameShape([map[]], files) && CanRun(Start([map[]], files), es)
            && var s := Run(Start([map[]], files), es);
               s.merger.Resting? && (0, k, x) in s.committed && !OnDisk(s, [map[]], 0, k) && InTable(s.table, 0, k)
  {
    var files := map[i := Complete([map[k := x]], VERSION), cut := Partial];
    var es := [MergeStart([i, cut]), MergeLoad, MergeUnlink, MergeRaise];
    MergeTakesIn(k, x, i, cut);
    FourSteps(Start([map[]], files), es);
    assert forall j: nat, h :: !InTable([map[]], j, h);
    hide Start, Step, Enabled, Pairs;
  }

  /** Step by step. */
  lemma MergeTakesIn(k: Key, x: Val, i: nat, cut: nat)
    requires i != cut
    ensures var files := map[i := Complete([map[k := x]], VERSION), cut := Partial];
            var s0 := Start([map[]], files);
            && SameShape([map[]], files) && (0, k, x) in s0.committed
            && Enabled(s0, MergeStart([i, cut]))
            && var s1 := Step(s0, MergeStart([i, cut]));
            && Enabled(s1, MergeLoad)
            && var s2 := Step(s1, MergeLoad);
            && Enabled(s2, MergeUnlink)
            && var s3 := Step(s2, MergeUnlink);
            && Enabled(s3, MergeRaise)
            && var s4 := Step(s3, MergeRaise);
               s4.merger.Resting? && s4.committed == s0.committed && s4.table == [map[k := x]] && s4.cachefile.None?
               && s4.files == map[cut := Partial]
  {
    var t: Tables := [map[]];
    var m: Tables := [map[k := x]];
    var files := map[i := Complete(m, VERSION), cut := Partial];
    assert Merge(m, t) == m by {
      assert map[k := x] + map[] == map[k := x];
    }
    var s0 := Start(t, files);
    StartCommits(t, files, i, k, x);
    hide Start, Merge, Pairs, Step, Enabled;
    var s1 := s0.(exclusive := true, merger := Merging([i, cut], false, false));
    BeginMerge(s0, i, cut);
    var s2 := s1.(table := m, merger := Merging([i, cut], true, true));
    TakeIn(s1, i, cut, m);
    var s3 := s2.(files := map[cut := Partial], merger := Merging([cut], false, true));
    assert files - {i} == map[cut := Partial];
    TakenIn(s2, i, cut);
    RaiseMerge(s3, cut);
  }

  lemma BeginMerge(s: State, i: nat, cut: nat)
    requires s.merger.Resting? && !s.exclusive && s.shared == {} && i != cut && forall f :: f in s.files <==> f == i || f == cut
    ensures Enabled(s, MergeStart([i, cut]))
    ensures Step(s, MergeStart([i, cut])) == s.(exclusive := true, merger := Merging([i, cut], false, false))
  {
  }

  lemma TakeIn(s: State, i: nat, cut: nat, m: Tables)
    requires s.merger == Merging([i, cut], false, false) && i in s.files && s.files[i] == Complete(m, VERSION)
    requires |m| >= |s.table| && Merge(m, s.table) == m
    ensures Enabled(s, MergeLoad) && Step(s, MergeLoad) == s.(table := m, merger := Merging([i, cut], true, true))
  {
    hide Merge;
  }

  lemma TakenIn(s: State, i: nat, cut: nat)
    requires s.merger == Merging([i, cut], true, true)
    ensures Enabled(s, MergeUnlink) && Step(s, MergeUnlink) == s.(files := s.files - {i}, merger := Merging([cut], false, true))
  {
    assert [i, cut][1..] == [cut];
  }

  lemma RaiseMerge(s: State, cut: nat)
    requires s.merger == Merging([cut], false, true) && cut in s.files && s.files[cut].Partial?
    ensures Enabled(s, MergeRaise) && Step(s, MergeRaise) == s.(exclusive := false, merger := Resting)
  {
  }

  lemma StartCommits(t: Tables, files: map<nat, File>, i: nat, k: Key, x: Val)
    requires i in files && files[i] == Complete([map[k := x]], VERSION)
    ensures var s := Start(t, files);
            && (0, k, x) in s.committed && s.files == files && s.table == t && s.cachefile.None?
            && !s.exclusive && s.shared == {} && s.merger.Resting?
  {
    var m: Tables := [map[k := x]];
    assert 0 < |m| && k in m[0] && (0, k, x) == (0, k, m[0][k]);
    assert (0, k, x) in Pairs(m);
  }

  lemma FourSteps(s: State, es: seq<Event>)
    requires |es| == 4 && Enabled(s, es[0])
    requires var s1 := Step(s, es[0]);
             && Enabled(s1, es[1])
             && var s2 := Step(s1, es[1]);
             && Enabled(s2, es[2])
             && Enabled(Step(s2, es[2]), es[3])
    ensures CanRun(s, es) && Run(s, es) == Step(Step(Step(Step(s, es[0]), es[1]), es[2]), es[3])
  {
    hide Step, Enabled;
    assert es[1..][1..] == es[2..] && es[2..][1..] == es[3..] && es[3..][1..] == [];
    var s1 := Step(s, es[0]);
    var s2 := Step(s1, es[1]);
    var s3 := Step(s2, es[2]);
    var s4 := Step(s3, es[3]);
    assert CanRun(s4, []) && Run(s4, []) == s4;
    assert CanRun(s3, es[3..]) && Run(s3, es[3..]) == s4;
    assert CanRun(s2, es[2..]) && Run(s2, es[2..]) == s4;
    assert CanRun(s1, es[1..]) && Run(s1, es[1..]) == s4;
  }

  /** What the merger had stays as it was: the first value of a key wins. */
  lemma {:induction false} FirstValueWins(s: State, es: seq<Event>, j: nat, k: Key)
    requires CanRun(s, es) && InTable(s.table, j, k)
    ensures var s' := Run(s, es);
            InTable(s'.table, j, k) && s'.table[j][k] == s.table[j][k]
    decreases |es|
  {
    if es != [] {
      TableGrows(s, es[0]);
      FirstValueWins(Step(s, es[0]), es[1..], j, k);
    }
  }

  /** When every process computes the value of a key in the same way, so does the merged cache. */
  lemma MergedIsFunction(table: Tables, files: map<nat, File>, es: seq<Event>, f: (nat, Key) -> Val)
    requires SameShape(table, files) && CanRun(Start(table, files), es)
    requires forall c :: c in Pairs(table) || c in Run(Start(table, files), es).committed ==> c.2 == f(c.0, c.1)
    ensures forall j: nat, k :: InTable(Run(Start(table, files), es).table, j, k) ==>
              Run(Start(table, files), es).table[j][k] == f(j, k)
  {
    NothingLost(table, files, es);
    var t := Run(Start(table, files), es).table;
    forall j: nat, k | InTable(t, j, k) ensures t[j][k] == f(j, k) {
      assert (j, k, t[j][k]) in Pairs(t);
    }
  }
}
