/** The 32-bit atomic operations of my_atomic.h built from compare-and-swap, run by any number of
    threads in any interleaving. */
module AtomicOps {

  type int32 = x: int | -0x8000_0000 <= x < 0x8000_0000

  /** Addition wraps around. */
  function Wrap(x: int): (r: int32)
    ensures -0x8000_0000 <= x < 0x8000_0000 ==> r == x
  {
    (x + 0x8000_0000) % 0x1_0000_0000 - 0x8000_0000
  }

  /** Wrapping keeps the remainder modulo 2^32. */
  lemma WrapIsCongruent(x: int)
    ensures (Wrap(x) - x) % 0x1_0000_0000 == 0
  {
    var k := (x + 0x8000_0000) / 0x1_0000_0000;
    assert Wrap(x) - x == (-k) * 0x1_0000_0000;
    ShiftedRemainder(0, k);
  }

  lemma WrapTwice(x: int, y: int)
    ensures Wrap(Wrap(x) + y) == Wrap(x + y)
  {
    var k := (x + 0x8000_0000) / 0x1_0000_0000;
    assert Wrap(x) == x - k * 0x1_0000_0000;
    ShiftedRemainder(x + y + 0x8000_0000, k);
  }

  lemma ShiftedRemainder(x: int, k: int)
    ensures (x - k * 0x1_0000_0000) % 0x1_0000_0000 == x % 0x1_0000_0000
  {
  }

  datatype Op = Add(v: int32) | Fas(v: int32) | Load | Store(v: int32)

  /** The operations under a lock (rwlock.h): the new value of the variable and the old one. */
  function Body(op: Op, a: int32): (int32, int32) {
    match op
    case Add(v) => (Wrap(a + v), a)
    case Fas(v) => (v, a)
    case Load => (a, a)
    case Store(v) => (v, a)
  }

  /** Compare-and-swap: the variable, the expected value and the verdict afterwards. */
  function Swap(a: int32, cmp: int32, set': int32): (int32, int32, bool) {
    if a == cmp then (set', cmp, true) else (a, a, false)
  }

  class Variable {
    var a: int32

    constructor (a: int32)
      ensures this.a == a
    {
      this.a := a;
    }

    /** InterlockedCompareExchange. */
    method CompareExchange(set': int32, cmp: int32) returns (initial: int32)
      modifies this
      ensures initial == old(a) && a == if old(a) == cmp then set' else old(a)
    {
      initial := a;
      if a == cmp { a := set'; }
    }

    /** make_atomic_cas_body of generic-msvc.h; cmp' is what the caller's variable holds afterwards. */
    method Cas(cmp: int32, set': int32) returns (cmp': int32, ret: bool)
      modifies this
      ensures (a, cmp', ret) == Swap(old(a), cmp, set')
    {
      cmp' := cmp;
      var initialCmp := cmp;
      var initialA := CompareExchange(set', initialCmp);
      ret := initialA == initialCmp;
      if !ret { cmp' := initialA; }
    }

    /** make_atomic_cas_body of rwlock.h, under the lock: the same. */
    method LockedCas(cmp: int32, set': int32) returns (cmp': int32, ret: bool)
      modifies this
      ensures (a, cmp', ret) == Swap(old(a), cmp, set')
    {
      cmp' := cmp;
      ret := a == cmp;
      if ret { a := set'; } else { cmp' := a; }
    }

    /** make_atomic_add_body of rwlock.h, */
    method LockedAdd(v: int32) returns (v': int32)
      modifies this
      ensures (a, v') == Body(Add(v), old(a)) && v' == old(a)
    {
      var sav := a;
      a := Wrap(a + v);
      v' := sav;
    }

    /** make_atomic_fas_body, */
    method LockedFas(v: int32) returns (v': int32)
      modifies this
      ensures (a, v') == Body(Fas(v), old(a)) && v' == old(a)
    {
      var sav := a;
      a := v;
      v' := sav;
    }

    /** make_atomic_load_body */
    method LockedLoad() returns (ret: int32)
      ensures (a, ret) == Body(Load, a) && ret == a
    {
      ret := a;
    }

    /** and make_atomic_store_body. */
    method LockedStore(v: int32)
      modifies this
      ensures a == Body(Store(v), old(a)).0
    {
      a := v;
    }

    /** The loop of add, fas and store when nobody interferes. */
    method Loop(op: Op) returns (v: int32)
      requires !op.Load?
      modifies this
      ensures (a, v) == Body(op, old(a)) && v == old(a)
    {
      var tmp := a;
      var done := false;
      while !done
        invariant if done then (a, tmp) == Body(op, old(a)) else a == old(a) == tmp
        decreases !done
      {
        tmp, done := Cas(tmp, Target(op, tmp));
      }
      v := tmp;
    }

    /** make_atomic_load_body: a swap of 0 for 0. */
    method LoadOnce() returns (ret: int32)
      modifies this
      ensures (a, ret) == Body(Load, old(a)) && ret == a == old(a)
    {
      ret := 0;
      var done;
      ret, done := Cas(ret, ret);
    }
  }

  /** The value a loop tries to store when it expects tmp. */
  function Target(op: Op, tmp: int32): int32 {
    match op
    case Add(v) => Wrap(tmp + v)
    case Fas(v) => v
    case Load => tmp
    case Store(v) => v
  }

  // ----- Interleavings -----

  /** Where a thread is: outside, called, or in the loop with its tmp. For the loop, `fails` counts the
      failed swaps and `start` is the length of the log when tmp was first read. */
  datatype Local = Idle | Called(op: Op) | Looping(op: Op, tmp: int32, fails: nat, start: nat)

  /** An operation that took effect: the value of the variable just before, and the value that its
      thread returns (store drops it). */
  datatype Event = Event(thread: nat, op: Op, found: int32, returned: int32)

  datatype State = State(a: int32, threads: map<nat, Local>, log: seq<Event>)

  datatype Action = Call(t: nat, op: Op) | Read(t: nat) | TrySwap(t: nat)

  predicate Enabled(s: State, act: Action) {
    && act.t in s.threads
    && match act
       case Call(t, op) => s.threads[t].Idle?
       case Read(t) => s.threads[t].Called? && !s.threads[t].op.Load?
       case TrySwap(t) => s.threads[t].Looping? || (s.threads[t].Called? && s.threads[t].op.Load?)
  }

  /** One step of one thread. */
  function Step(s: State, act: Action): State
    requires Enabled(s, act)
  {
    match act
    case Call(t, op) => s.(threads := s.threads[t := Called(op)])
    case Read(t) => s.(threads := s.threads[t := Looping(s.threads[t].op, s.a, 0, |s.log|)])
    case TrySwap(t) =>
      match s.threads[t]
      case Called(op) =>
        var (a, ret, done) := Swap(s.a, 0, 0);
        State(a, s.threads[t := Idle], s.log + [Event(t, op, s.a, ret)])
      case Looping(op, tmp, fails, start) =>
        var (a, tmp', done) := Swap(s.a, tmp, Target(op, tmp));
        if done then State(a, s.threads[t := Idle], s.log + [Event(t, op, s.a, tmp)])
        else State(a, s.threads[t := Looping(op, tmp', fails + 1, start)], s.log)
  }

  function Initial(a: int32, ts: set<nat>): State {
    State(a, map t | t in ts :: Idle, [])
  }

  /** The state after the given steps; a step that is not enabled changes nothing. */
  function After(a: int32, ts: set<nat>, acts: seq<Action>): State {
    if acts == [] then Initial(a, ts)
    else
      var p := After(a, ts, acts[..|acts| - 1]);
      if Enabled(p, acts[|acts| - 1]) then Step(p, acts[|acts| - 1]) else p
  }

  // ----- Every operation takes effect at once, at its successful swap -----

  /** A step changes nothing, or it is exactly the locked body of one operation its thread called. */
  lemma StepRefines(s: State, act: Action)
    requires Enabled(s, act)
    ensures var t := Step(s, act);
            if t.log == s.log then t.a == s.a
            else && act.TrySwap? && !s.threads[act.t].Idle? && t.threads == s.threads[act.t := Idle]
                 && t.log == s.log + [Event(act.t, s.threads[act.t].op, s.a, s.a)]
                 && t.a == Body(s.threads[act.t].op, s.a).0
  {
    if act.TrySwap? && s.threads[act.t].Looping? {
      var op := s.threads[act.t].op;
      assert Body(op, s.a).0 == Target(op, s.a);
    }
  }

  /** The variable after the logged operations, one after another under the lock. */
  function Replay(a: int32, log: seq<Event>): int32 {
    if log == [] then a else Body(log[|log| - 1].op, Replay(a, log[..|log| - 1])).0
  }

  /** Every operation found the value that the ones before it had left. */
  predicate InSequence(a: int32, log: seq<Event>) {
    forall i {:trigger log[i]} :: 0 <= i < |log| ==> log[i].found == Replay(a, log[..i])
  }

  /** The log is a sequential history of the locked bodies with the same results, and it ends with
      the value of the variable. */
  lemma {:induction false} Linearizable(a: int32, ts: set<nat>, acts: seq<Action>)
    ensures var s := After(a, ts, acts); InSequence(a, s.log) && s.a == Replay(a, s.log)
  {
    if acts == [] {
    } else {
      var p, act := After(a, ts, acts[..|acts| - 1]), acts[|acts| - 1];
      Linearizable(a, ts, acts[..|acts| - 1]);
      if Enabled(p, act) {
        var s := Step(p, act);
        StepRefines(p, act);
        if s.log != p.log {
          AppendInSequence(a, p.log, s.log[|p.log|]);
          ReplayOneMore(a, p.log, s.log[|p.log|]);
        }
      }
    }
  }

  lemma AppendInSequence(a: int32, log: seq<Event>, e: Event)
    requires InSequence(a, log) && e.found == Replay(a, log)
    ensures InSequence(a, log + [e])
  {
    forall i | 0 <= i < |log + [e]| ensures (log + [e])[i].found == Replay(a, (log + [e])[..i]) {
      FoundAt(a, log, e, i);
    }
  }

  lemma FoundAt(a: int32, log: seq<Event>, e: Event, i: nat)
    requires InSequence(a, log) && e.found == Replay(a, log) && i <= |log|
    ensures (log + [e])[i].found == Replay(a, (log + [e])[..i])
  {
    hide Replay;
    assert (log + [e])[..i] == log[..i];
    if i < |log| { assert (log + [e])[i] == log[i]; } else { assert log[..i] == log; }
  }

  lemma ReplayOneMore(a: int32, log: seq<Event>, e: Event)
    ensures Replay(a, log + [e]) == Body(e.op, Replay(a, log)).0
  {
    hide Body;
    assert (log + [e])[..|log|] == log;
  }

  /** Every operation returns what the locked body returns: the value of the variable just before its
      successful swap, as left by the operations before it. */
  lemma {:induction false} ReturnsWereThere(a: int32, ts: set<nat>, acts: seq<Action>, i: nat)
    requires i < |After(a, ts, acts).log|
    ensures var log := After(a, ts, acts).log;
            log[i].returned == log[i].found == Replay(a, log[..i]) == Body(log[i].op, log[i].found).1
  {
    if acts == [] {
    } else {
      var p, act := After(a, ts, acts[..|acts| - 1]), acts[|acts| - 1];
      var log := After(a, ts, acts).log;
      Linearizable(a, ts, acts);
      assert log[i].found == Replay(a, log[..i]);
      if Enabled(p, act) { StepRefines(p, act); }
      if i < |p.log| { ReturnsWereThere(a, ts, acts[..|acts| - 1], i); }
    }
  }

  // ----- Fetch-and-store conserves values -----

  /** All values written: what fetch-and-store and store were given, and the sums that add computed. */
  function Written(log: seq<Event>): multiset<int32> {
    if log == [] then multiset{}
    else
      var e, rest := log[|log| - 1], Written(log[..|log| - 1]);
      if e.op.Load? then rest else rest + multiset{Body(e.op, e.found).0}
  }

  /** All values displaced: those that fetch-and-store and add returned and that store overwrote. */
  function Displaced(log: seq<Event>): multiset<int32> {
    if log == [] then multiset{}
    else
      var e, rest := log[|log| - 1], Displaced(log[..|log| - 1]);
      if e.op.Load? then rest else rest + multiset{e.found}
  }

  lemma {:induction false} SequenceConserves(a: int32, log: seq<Event>)
    requires InSequence(a, log)
    ensures multiset{a} + Written(log) == Displaced(log) + multiset{Replay(a, log)}
  {
    if log == [] {
    } else {
      hide Wrap;
      var n := |log| - 1;
      ShorterSequence(a, log);
      SequenceConserves(a, log[..n]);
      var e, before := log[n], Replay(a, log[..n]);
      assert e.found == before;
      if !e.op.Load? {
        var after := multiset{Body(e.op, before).0};
        BothSides(multiset{a}, Written(log[..n]), Displaced(log[..n]), multiset{before}, after);
      }
    }
  }

  lemma BothSides(a: multiset<int32>, written: multiset<int32>, displaced: multiset<int32>, b: multiset<int32>,
                  v: multiset<int32>)
    requires a + written == displaced + b
    ensures a + (written + v) == (displaced + b) + v
  {
    assert a + (written + v) == (a + written) + v;
  }

  lemma ShorterSequence(a: int32, log: seq<Event>)
    requires InSequence(a, log) && log != []
    ensures InSequence(a, log[..|log| - 1])
  {
    PrefixInSequence(a, log, |log| - 1);
  }

  /** In every interleaving: the initial value and everything written is everything displaced and
      the current value. */
  lemma FetchAndStoreConserves(a: int32, ts: set<nat>, acts: seq<Action>)
    ensures var s := After(a, ts, acts); multiset{a} + Written(s.log) == Displaced(s.log) + multiset{s.a}
  {
    hide After;
    Linearizable(a, ts, acts);
    SequenceConserves(a, After(a, ts, acts).log);
  }

  // ----- Fetch-and-add sums up -----

  /** The sum of all additions. */
  function Sum(log: seq<Event>): int {
    if log == [] then 0
    else
      var e := log[|log| - 1];
      Sum(log[..|log| - 1]) + if e.op.Add? then e.op.v else 0
  }

  predicate Stores(op: Op) {
    op.Fas? || op.Store?
  }

  /** By how much all stores together moved the variable. */
  function Moved(log: seq<Event>): int {
    if log == [] then 0
    else
      var e := log[|log| - 1];
      Moved(log[..|log| - 1]) + if Stores(e.op) then e.op.v - e.found else 0
  }

  predicate NoStore(log: seq<Event>) {
    forall e :: e in log ==> !Stores(e.op)
  }

  lemma {:induction false} NothingMoved(log: seq<Event>)
    requires NoStore(log)
    ensures Moved(log) == 0
  {
    if log == [] {
    } else {
      assert log[|log| - 1] in log;
      NothingMoved(log[..|log| - 1]);
    }
  }

  lemma {:induction false} SequenceSums(a: int32, log: seq<Event>)
    requires InSequence(a, log)
    ensures Replay(a, log) == Wrap(a + Sum(log) + Moved(log))
  {
    if log == [] {
    } else {
      hide Wrap;
      var n := |log| - 1;
      var e, x := log[n], a + Sum(log[..n]) + Moved(log[..n]);
      ShorterSequence(a, log);
      SequenceSums(a, log[..n]);
      assert e.found == Wrap(x);
      if e.op.Add? {
        WrapTwice(x, e.op.v);
      } else if Stores(e.op) {
        WrapTwice(x, e.op.v - e.found);
      }
    }
  }

  /** In every interleaving the variable is the initial value plus all completed additions plus what
      the stores moved, wrapped; without stores it is the wrapped sum. */
  lemma FetchAndAddSums(a: int32, ts: set<nat>, acts: seq<Action>)
    ensures var s := After(a, ts, acts); s.a == Wrap(a + Sum(s.log) + Moved(s.log))
    ensures var s := After(a, ts, acts); NoStore(s.log) ==> s.a == Wrap(a + Sum(s.log))
  {
    hide Wrap, After;
    var s := After(a, ts, acts);
    Linearizable(a, ts, acts);
    SequenceSums(a, s.log);
    if NoStore(s.log) { NothingMoved(s.log); }
  }

  lemma NoStorePrefix(log: seq<Event>, n: nat)
    requires NoStore(log) && n <= |log|
    ensures NoStore(log[..n])
  {
  }

  lemma SumsBefore(a: int32, log: seq<Event>, n: nat)
    requires InSequence(a, log) && NoStore(log) && n <= |log|
    ensures Replay(a, log[..n]) == Wrap(a + Sum(log[..n]))
  {
    hide Wrap, Sum, Replay, NoStore, Moved, InSequence;
    PrefixInSequence(a, log, n);
    SequenceSums(a, log[..n]);
    NoStorePrefix(log, n);
    NothingMoved(log[..n]);
  }

  /** In a history of additions alone each one returns the sum of those before it. */
  lemma AdditionsReturnSums(a: int32, ts: set<nat>, acts: seq<Action>, i: nat)
    requires i < |After(a, ts, acts).log| && NoStore(After(a, ts, acts).log)
    ensures var log := After(a, ts, acts).log; log[i].returned == Wrap(a + Sum(log[..i]))
  {
    hide Wrap, After, Body, Sum, Replay, NoStore, InSequence;
    Linearizable(a, ts, acts);
    ReturnsWereThere(a, ts, acts, i);
    SumsBefore(a, After(a, ts, acts).log, i);
  }

  lemma PrefixInSequence(a: int32, log: seq<Event>, n: nat)
    requires InSequence(a, log) && n <= |log|
    ensures InSequence(a, log[..n])
  {
    hide Replay;
    forall i | 0 <= i < n ensures log[..n][i].found == Replay(a, log[..n][..i]) {
      assert log[..n][..i] == log[..i] && log[..n][i] == log[i];
    }
  }

  // ----- A thread fails only because others succeed -----

  /** How many of the logged operations write. */
  function Writes(log: seq<Event>): nat {
    if log == [] then 0 else Writes(log[..|log| - 1]) + if log[|log| - 1].op.Load? then 0 else 1
  }

  /** The failed swaps of the current operation of t, and the failure to come if tmp is outdated, are
      covered by writes that other threads made since t read the variable. */
  predicate Covered(s: State, t: nat)
    requires t in s.threads && s.threads[t].Looping?
  {
    var l := s.threads[t];
    && l.start <= |s.log|
    && (forall i :: l.start <= i < |s.log| ==> s.log[i].thread != t)
    && l.fails + (if s.a == l.tmp then 0 else 1) <= Writes(s.log[l.start..])
  }

  lemma {:induction false} FailuresAreCovered(a: int32, ts: set<nat>, acts: seq<Action>, t: nat)
    requires t in ts
    ensures var s := After(a, ts, acts); t in s.threads && (s.threads[t].Looping? ==> Covered(s, t))
  {
    if acts == [] {
    } else {
      FailuresAreCovered(a, ts, acts[..|acts| - 1], t);
      var p, act := After(a, ts, acts[..|acts| - 1]), acts[|acts| - 1];
      if Enabled(p, act) && Step(p, act).threads[t].Looping? {
        StepKeepsCovered(p, act, t);
      }
    }
  }

  lemma StepKeepsCovered(s: State, act: Action, t: nat)
    requires Enabled(s, act) && t in s.threads && (s.threads[t].Looping? ==> Covered(s, t))
    requires Step(s, act).threads[t].Looping?
    ensures Covered(Step(s, act), t)
  {
    StepRefines(s, act);
    var r := Step(s, act);
    var l := r.threads[t];
    if act.t == t {
      assert r.log == s.log && r.a == s.a;
      if act.Read? { assert r.log[l.start..] == []; }
    } else {
      assert l == s.threads[t];
      if r.log != s.log {
        assert r.log[l.start..] == s.log[l.start..] + [r.log[|s.log|]];
        assert r.log[l.start..][..|s.log| - l.start] == s.log[l.start..];
      }
    }
  }
}
