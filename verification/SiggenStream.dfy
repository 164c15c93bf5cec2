// Recipe information sent from parsing processes: repeated values go as numbers, and are put back.
module SiggenStream {
  import opened Options

  type Val = string

  /** A dictionary such as siggen_varvals, in iteration order; its keys are distinct. */
  type Deps = seq<(string, Option<Val>)>

  /** What `_save` makes of one entry: `(dep, None, None)`, `(dep, None, n)` or `(dep, fs, n)`. */
  datatype Slot = Slot(dep: string, fs: Option<Val>, num: Option<nat>)

  /** The sending side of one process. */
  datatype Writer = Writer(saveMap: map<Val, nat>, saveCount: nat)

  const RESET := Writer(map[], 1)

  // ---- _save and _restore as functions ----

  function SaveOne(w: Writer, dep: string, fs: Option<Val>): (Writer, Slot) {
    if fs.None? then (w, Slot(dep, None, None))
    else if fs.value in w.saveMap then (w, Slot(dep, None, Some(w.saveMap[fs.value])))
    else (Writer(w.saveMap[fs.value := w.saveCount], w.saveCount + 1), Slot(dep, fs, Some(w.saveCount)))
  }

  function Save(w: Writer, deps: Deps): (Writer, seq<Slot>) {
    if deps == [] then (w, [])
    else
      var (w1, front) := Save(w, deps[..|deps| - 1]);
      var (w2, slot) := SaveOne(w1, deps[|deps| - 1].0, deps[|deps| - 1].1);
      (w2, front + [slot])
  }

  /** Putting back one slot; None is the KeyError for a number that is not known. */
  function RestoreOne(known: map<nat, Val>, slot: Slot): Option<(map<nat, Val>, Option<Val>)> {
    if slot.fs.None? && slot.num.None? then Some((known, None))
    else if slot.fs.None? then
      if slot.num.value in known then Some((known, Some(known[slot.num.value]))) else None
    else if slot.num.None? then Some((known, slot.fs))
    else Some((known[slot.num.value := slot.fs.value], slot.fs))
  }

  function Restore(known: map<nat, Val>, slots: seq<Slot>): Option<(map<nat, Val>, Deps)> {
    if slots == [] then Some((known, []))
    else
      var front := Restore(known, slots[..|slots| - 1]);
      if front.None? then None
      else
        var last := slots[|slots| - 1];
        var one := RestoreOne(front.value.0, last);
        if one.None? then None else Some((one.value.0, front.value.1 + [(last.dep, one.value.1)]))
  }

  // ---- _save and _restore as the class runs them ----

  class SiggenRecipeInfo {
    var store: set<Val>
    var saveMap: map<Val, nat>
    var saveCount: nat
    var restoreMap: map<nat, map<nat, Val>>

    constructor ()
      ensures Sender() == RESET && restoreMap == map[]
    {
      store, saveMap, saveCount, restoreMap := {}, map[], 1, map[];
    }

    ghost function Sender(): Writer
      reads this
    {
      Writer(saveMap, saveCount)
    }

    /** What is known of the numbers of one sending process. */
    ghost function Known(pid: nat): map<nat, Val>
      reads this
    {
      if pid in restoreMap then restoreMap[pid] else map[]
    }

    /** `reset()`: the store of shared values stays. */
    method Reset()
      modifies this
      ensures Sender() == RESET && restoreMap == map[] && store == old(store)
    {
      saveMap, saveCount, restoreMap := map[], 1, map[];
    }

    /** `_save(deps)` */
    method SaveDeps(deps: Deps) returns (ret: seq<Slot>)
      modifies this
      ensures (Sender(), ret) == Save(old(Sender()), deps)
      ensures restoreMap == old(restoreMap) && store == old(store)
    {
      ret := [];
      for i := 0 to |deps|
        invariant (Sender(), ret) == Save(old(Sender()), deps[..i])
        invariant restoreMap == old(restoreMap) && store == old(store)
      {
        assert deps[..i + 1][..i] == deps[..i];
        var (dep, fs) := deps[i];
        if fs.None? {
          ret := ret + [Slot(dep, None, None)];
        } else if fs.value in saveMap {
          ret := ret + [Slot(dep, None, Some(saveMap[fs.value]))];
        } else {
          saveMap := saveMap[fs.value := saveCount];
          ret := ret + [Slot(dep, fs, Some(saveCount))];
          saveCount := saveCount + 1;
        }
      }
      assert deps[..|deps|] == deps;
    }

    /** `_restore(deps, pid)`; ok is false for a KeyError. */
    method RestoreDeps(deps: seq<Slot>, pid: nat) returns (ok: bool, ret: Deps)
      requires forall i :: 0 <= i < |deps| && deps[i].fs.Some? ==> deps[i].num.Some?
      modifies this
      ensures ok <==> Restore(old(Known(pid)), deps).Some?
      ensures ok ==> Restore(old(Known(pid)), deps) == Some((Known(pid), ret))
      ensures forall other :: other != pid ==> Known(other) == old(Known(other))
      ensures Sender() == old(Sender())
    {
      ok, ret := true, [];
      if deps == [] {
        return;
      }
      if pid !in restoreMap {
        restoreMap := restoreMap[pid := map[]];
      }
      for i := 0 to |deps|
        invariant pid in restoreMap
        invariant Restore(old(Known(pid)), deps[..i]) == Some((restoreMap[pid], ret))
        invariant forall other :: other != pid ==> Known(other) == old(Known(other))
        invariant Sender() == old(Sender())
      {
        assert deps[..i + 1][..i] == deps[..i];
        var slot := deps[i];
        if slot.fs.None? && slot.num.None? {
          ret := ret + [(slot.dep, None)];
        } else if slot.fs.None? {
          if slot.num.value !in restoreMap[pid] {
            RestoreFails(old(Known(pid)), deps, i + 1);
            return false, ret;
          }
          ret := ret + [(slot.dep, Some(restoreMap[pid][slot.num.value]))];
        } else {
          var fs := slot.fs.value;
          store := store + {fs};
          var known: map<nat, Val> := restoreMap[pid];
          known := known[slot.num.value := fs];
          restoreMap := restoreMap[pid := known];
          ret := ret + [(slot.dep, Some(fs))];
        }
      }
      assert deps[..|deps|] == deps;
    }
  }

  lemma {:induction false} RestoreFails(known: map<nat, Val>, slots: seq<Slot>, k: nat)
    requires k <= |slots| && Restore(known, slots[..k]).None?
    ensures Restore(known, slots).None?
    decreases |slots| - k
  {
    if k < |slots| {
      assert slots[..k + 1][..k] == slots[..k];
      RestoreFails(known, slots, k + 1);
    } else {
      assert slots[..k] == slots;
    }
  }

  // ---- one dictionary there and back ----

  /** known is the inverse of what the sender has numbered so far. */
  ghost predicate Inverse(known: map<nat, Val>, w: Writer) {
    && (forall v :: v in w.saveMap ==> w.saveMap[v] < w.saveCount && w.saveMap[v] in known && known[w.saveMap[v]] == v)
    && (forall k :: k in known ==> known[k] in w.saveMap && w.saveMap[known[k]] == k)
  }

  lemma OneRoundTrip(known: map<nat, Val>, w: Writer, dep: string, fs: Option<Val>)
    requires Inverse(known, w)
    ensures var (w', slot) := SaveOne(w, dep, fs);
            var r := RestoreOne(known, slot);
            && slot.dep == dep && (slot.fs.Some? ==> slot.num.Some?)
            && r.Some? && r.value.1 == fs && Inverse(r.value.0, w')
  {
    if fs.Some? && fs.value !in w.saveMap {
      assert forall k :: k in known ==> k < w.saveCount;
    }
  }

  /** A dictionary that is saved and then restored by a receiver in step with the sender comes back. */
  lemma {:induction false} RoundTrip(known: map<nat, Val>, w: Writer, deps: Deps)
    requires Inverse(known, w)
    ensures var (w', slots) := Save(w, deps);
            var r := Restore(known, slots);
            && (forall i :: 0 <= i < |slots| && slots[i].fs.Some? ==> slots[i].num.Some?)
            && r.Some? && r.value.1 == deps && Inverse(r.value.0, w')
  {
    if deps != [] {
      var front, last := deps[..|deps| - 1], deps[|deps| - 1];
      RoundTrip(known, w, front);
      var (w1, slots1) := Save(w, front);
      var (w2, slot) := SaveOne(w1, last.0, last.1);
      var known1 := Restore(known, slots1).value.0;
      OneRoundTrip(known1, w1, last.0, last.1);
      assert (slots1 + [slot])[..|slots1|] == slots1;
      assert deps == front + [last];
    }
  }

  /** Which values the sender has numbered after a dictionary: those it had, and those in the dictionary. */
  lemma {:induction false} Numbered(w: Writer, deps: Deps, v: Val)
    ensures v in Save(w, deps).0.saveMap <==> v in w.saveMap || exists j :: 0 <= j < |deps| && deps[j].1 == Some(v)
  {
    if deps != [] {
      var front, last := deps[..|deps| - 1], deps[|deps| - 1];
      Numbered(w, front, v);
      assert forall j :: 0 <= j < |front| ==> front[j] == deps[j];
      if last.1 == Some(v) {
        assert deps[|deps| - 1].1 == Some(v);
      }
    }
  }

  /** A value travels in full exactly once: at its first occurrence since the reset. */
  lemma {:induction false} SentInFullOnce(w: Writer, deps: Deps, i: nat)
    requires i < |deps|
    ensures var slots := Save(w, deps).1;
            && |slots| == |deps| && slots[i].dep == deps[i].0
            && (slots[i].fs.Some? <==>
                deps[i].1.Some? && deps[i].1.value !in w.saveMap && forall j :: 0 <= j < i ==> deps[j].1 != deps[i].1)
            && (slots[i].num.Some? <==> deps[i].1.Some?)
    decreases |deps|
  {
    var front, last := deps[..|deps| - 1], deps[|deps| - 1];
    assert forall j :: 0 <= j < |front| ==> front[j] == deps[j];
    SaveLength(w, front);
    if i < |front| {
      SentInFullOnce(w, front, i);
    } else if last.1.Some? {
      Numbered(w, front, last.1.value);
    }
  }

  /** The values are numbered from 1 in the order in which they travel, without gaps. */
  lemma {:induction false} NumberedInOrder(w: Writer, deps: Deps, i: nat)
    requires w.saveCount == |w.saveMap| + 1 && i <= |deps|
    ensures Save(w, deps).0.saveCount == |Save(w, deps).0.saveMap| + 1
    ensures i < |deps| ==>
              var slots := Save(w, deps).1;
              |slots| == |deps| && (slots[i].fs.Some? ==> slots[i].num == Some(|Save(w, deps[..i]).0.saveMap| + 1))
    decreases |deps|
  {
    if deps != [] {
      var front, last := deps[..|deps| - 1], deps[|deps| - 1];
      SaveLength(w, front);
      NumberedInOrder(w, front, if i < |front| then i else |front|);
      var w1 := Save(w, front).0;
      assert last.1.Some? && last.1.value !in w1.saveMap ==> |w1.saveMap[last.1.value := w1.saveCount]| == |w1.saveMap| + 1;
      if i < |front| {
        assert deps[..i] == front[..i];
      } else if i == |front| {
        assert deps[..i] == front;
      }
    }
  }

  lemma {:induction false} SaveLength(w: Writer, deps: Deps)
    ensures |Save(w, deps).1| == |deps|
  {
    if deps != [] {
      SaveLength(w, deps[..|deps| - 1]);
    }
  }

  // ---- many senders, one receiver ----

  /**
   * wire[p] is what process p has sent and the receiver has not read; sent and got are the dictionaries
   * that went in at the one end and came out at the other.
   */
  datatype System = System(
    senders: map<nat, Writer>,
    wire: map<nat, seq<seq<Slot>>>,
    restoreMap: map<nat, map<nat, Val>>,
    sent: map<nat, seq<Deps>>,
    got: map<nat, seq<Deps>>,
    keyError: bool)

  datatype Event = Send(p: nat, deps: Deps) | Receive(p: nat)

  function Known(s: System, p: nat): map<nat, Val> {
    if p in s.restoreMap then s.restoreMap[p] else map[]
  }

  predicate Enabled(s: System, e: Event) {
    match e
    case Send(p, deps) => p in s.senders && p in s.wire && p in s.sent
    case Receive(p) => p in s.wire && s.wire[p] != [] && p in s.got
  }

  /** Messages of one process arrive in the order sent; different processes interleave freely. */
  function Step(s: System, e: Event): System
    requires Enabled(s, e)
  {
    match e
    case Send(p, deps) =>
      var (w, slots) := Save(s.senders[p], deps);
      s.(senders := s.senders[p := w], wire := s.wire[p := s.wire[p] + [slots]], sent := s.sent[p := s.sent[p] + [deps]])
    case Receive(p) =>
      var r := Restore(Known(s, p), s.wire[p][0]);
      var s' := s.(wire := s.wire[p := s.wire[p][1..]]);
      if r.None? then s'.(keyError := true)
      else s'.(restoreMap := s.restoreMap[p := r.value.0], got := s.got[p := s.got[p] + [r.value.1]])
  }

  predicate CanRun(s: System, es: seq<Event>)
    decreases |es|
  {
    es == [] || (Enabled(s, es[0]) && CanRun(Step(s, es[0]), es[1..]))
  }

  function Run(s: System, es: seq<Event>): System
    requires CanRun(s, es)
    decreases |es|
  {
    if es == [] then s else Run(Step(s, es[0]), es[1..])
  }

  /** Every process starts from the reset state. */
  function Start(pids: set<nat>): System {
    System(map p | p in pids :: RESET, map p | p in pids :: [], map[], map p | p in pids :: [], map p | p in pids :: [], false)
  }

  /** The sending side after some dictionaries. */
  function SenderAfter(w: Writer, ds: seq<Deps>): Writer
    decreases |ds|
  {
    if ds == [] then w else SenderAfter(Save(w, ds[0]).0, ds[1..])
  }

  /** The messages for some dictionaries. */
  function Messages(w: Writer, ds: seq<Deps>): seq<seq<Slot>>
    decreases |ds|
  {
    if ds == [] then [] else [Save(w, ds[0]).1] + Messages(Save(w, ds[0]).0, ds[1..])
  }

  /** Process p: what came out is what went in first, and the receiver knows the inverse of that part. */
  ghost predicate InStep(s: System, p: nat)
    requires p in s.senders && p in s.wire && p in s.sent && p in s.got
  {
    var k := |s.got[p]|;
    && k <= |s.sent[p]| && s.got[p] == s.sent[p][..k]
    && var w := SenderAfter(RESET, s.sent[p][..k]);
       && Inverse(Known(s, p), w)
       && s.wire[p] == Messages(w, s.sent[p][k..])
       && s.senders[p] == SenderAfter(w, s.sent[p][k..])
  }

  ghost predicate Inv(s: System, pids: set<nat>) {
    && !s.keyError
    && (forall p :: p in s.senders || p in s.wire || p in s.sent || p in s.got ==> p in pids)
    && (forall p :: p in pids ==> p in s.senders && p in s.wire && p in s.sent && p in s.got && InStep(s, p))
  }

  lemma {:induction false} SenderAfterBack(w: Writer, ds: seq<Deps>, d: Deps)
    ensures SenderAfter(w, ds + [d]) == Save(SenderAfter(w, ds), d).0
    ensures Messages(w, ds + [d]) == Messages(w, ds) + [Save(SenderAfter(w, ds), d).1]
    decreases |ds|
  {
    if ds == [] {
      assert ds + [d] == [d] && [d][1..] == [];
    } else {
      assert (ds + [d])[1..] == ds[1..] + [d];
      SenderAfterBack(Save(w, ds[0]).0, ds[1..], d);
    }
  }

  lemma SendInStep(s: System, p: nat, deps: Deps)
    requires p in s.senders && p in s.wire && p in s.sent && p in s.got && InStep(s, p)
    ensures InStep(Step(s, Send(p, deps)), p)
  {
    hide Save, Restore, Inverse, SenderAfter, Messages;
    var s' := Step(s, Send(p, deps));
    var k, sent := |s.got[p]|, s.sent[p];
    var w := SenderAfter(RESET, sent[..k]);
    SenderAfterBack(w, sent[k..], deps);
    assert (sent + [deps])[..k] == sent[..k] && (sent + [deps])[k..] == sent[k..] + [deps];
    assert s'.sent[p] == sent + [deps] && s'.got == s.got && Known(s', p) == Known(s, p);
  }

  lemma NextMessage(s: System, p: nat)
    requires p in s.senders && p in s.wire && p in s.sent && p in s.got && InStep(s, p) && s.wire[p] != []
    ensures var k, sent := |s.got[p]|, s.sent[p];
            var w := SenderAfter(RESET, sent[..k]);
            var w' := Save(w, sent[k]).0;
            && k < |sent| && Inverse(Known(s, p), w)
            && s.wire[p] == [Save(w, sent[k]).1] + Messages(w', sent[k + 1..])
            && s.senders[p] == SenderAfter(w', sent[k + 1..])
            && w' == SenderAfter(RESET, sent[..k + 1])
  {
    hide Save, Inverse;
    var k, sent := |s.got[p]|, s.sent[p];
    assert sent[k..] != [] && sent[k..][1..] == sent[k + 1..];
    SenderAfterBack(RESET, sent[..k], sent[k]);
    assert sent[..k + 1] == sent[..k] + [sent[k]];
  }

  lemma ReceiveInStep(s: System, p: nat)
    requires p in s.senders && p in s.wire && p in s.sent && p in s.got && InStep(s, p) && s.wire[p] != []
    ensures var s' := Step(s, Receive(p));
            p in s'.wire && p in s'.got && InStep(s', p) && s'.keyError == s.keyError
  {
    NextMessage(s, p);
    hide Save, Restore, Inverse, SenderAfter, Messages;
    var s' := Step(s, Receive(p));
    var k, sent := |s.got[p]|, s.sent[p];
    var w := SenderAfter(RESET, sent[..k]);
    RoundTrip(Known(s, p), w, sent[k]);
    assert s'.got[p] == s.got[p] + [sent[k]] == sent[..k + 1];
    assert s'.sent == s.sent && s'.senders == s.senders;
  }

  lemma OtherInStep(s: System, e: Event, q: nat)
    requires q in s.senders && q in s.wire && q in s.sent && q in s.got && InStep(s, q) && Enabled(s, e) && q != e.p
    ensures var s' := Step(s, e);
            q in s'.senders && q in s'.wire && q in s'.sent && q in s'.got && InStep(s', q)
  {
    hide Save, Restore, Inverse, SenderAfter, Messages;
  }

  /** A step of one process keeps every process in step. */
  lemma StepInStep(s: System, e: Event, q: nat)
    requires q in s.senders && q in s.wire && q in s.sent && q in s.got && InStep(s, q) && Enabled(s, e)
    ensures var s' := Step(s, e);
            && q in s'.senders && q in s'.wire && q in s'.sent && q in s'.got && InStep(s', q)
            && (q == e.p ==> s'.keyError == s.keyError)
  {
    if q != e.p {
      OtherInStep(s, e, q);
    } else {
      hide InStep, Save, Restore;
      match e {
        case Send(p, deps) => SendInStep(s, p, deps);
        case Receive(p) => ReceiveInStep(s, p);
      }
    }
  }

  lemma StepKeeps(s: System, e: Event, pids: set<nat>)
    requires Inv(s, pids) && Enabled(s, e)
    ensures Inv(Step(s, e), pids)
  {
    hide InStep, Save, Restore;
    var s' := Step(s, e);
    assert e.p in pids;
    forall q | q in pids ensures q in s'.senders && q in s'.wire && q in s'.sent && q in s'.got && InStep(s', q) {
      StepInStep(s, e, q);
    }
    StepInStep(s, e, e.p);
  }

  lemma {:induction false} RunKeeps(s: System, es: seq<Event>, pids: set<nat>)
    requires Inv(s, pids) && CanRun(s, es)
    ensures Inv(Run(s, es), pids)
    decreases |es|
  {
    hide Step, Inv;
    if es != [] {
      StepKeeps(s, es[0], pids);
      RunKeeps(Step(s, es[0]), es[1..], pids);
    }
  }

  /**
   * For any number of sending processes and any interleaving: no number is ever unknown, the dictionaries
   * received from a process are the first ones it sent, in order and unchanged, and what the receiver
   * knows of a process is the inverse of the numbering behind them.
   */
  lemma StreamRoundTrip(pids: set<nat>, es: seq<Event>, p: nat)
    requires CanRun(Start(pids), es) && p in pids
    ensures var s := Run(Start(pids), es);
            && !s.keyError && p in s.sent && p in s.got && p in s.wire
            && s.got[p] <= s.sent[p] && |s.got[p]| + |s.wire[p]| == |s.sent[p]|
            && Inverse(Known(s, p), SenderAfter(RESET, s.got[p]))
  {
    var s0 := Start(pids);
    forall q | q in pids ensures InStep(s0, q) {
      assert s0.sent[q][..0] == [] && s0.sent[q][0..] == [];
    }
    RunKeeps(s0, es, pids);
    var s := Run(s0, es);
    assert InStep(s, p);
    MessagesLength(SenderAfter(RESET, s.got[p]), s.sent[p][|s.got[p]|..]);
  }

  lemma {:induction false} MessagesLength(w: Writer, ds: seq<Deps>)
    ensures |Messages(w, ds)| == |ds|
    decreases |ds|
  {
    if ds != [] {
      MessagesLength(Save(w, ds[0]).0, ds[1..]);
    }
  }

  /** A receiver that resets in mid-stream can no longer follow the numbers. */
  lemma ResetLosesNumbers(v: Val)
    ensures var (w1, m1) := Save(RESET, [("A", Some(v))]);
            var (w2, m2) := Save(w1, [("B", Some(v))]);
            && Restore(map[], m1).Some?
            && Restore(Restore(map[], m1).value.0, m2).Some?
            && Restore(map[], m2).None?
  {
  }
}
